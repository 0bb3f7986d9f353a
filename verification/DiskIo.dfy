/** The in-memory disk: an array of 512-byte sectors. */
module DiskIo {
  import opened Bytes

  const SECTOR := 512

  class Disk {
    const data: array<Byte>
    const sectors: nat

    /** The size is computed in 32 bits from a size in MB, so a disk has at most 2^23 sectors. */
    ghost predicate Valid()
    {
      data.Length == SECTOR * sectors && sectors <= 0x80_0000
    }

    constructor (data: array<Byte>, sectors: nat)
      requires data.Length == SECTOR * sectors && sectors <= 0x80_0000
      ensures Valid() && this.data == data && this.sectors == sectors
    {
      this.data := data;
      this.sectors := sectors;
    }

    /** Copies one sector into buffer[at..at + 512]. */
    method ReadSector(sector: U32, buffer: array<Byte>, at: nat) returns (ok: bool)
      requires Valid() && buffer != data && at + SECTOR <= buffer.Length
      modifies buffer
      ensures ok == (sector < sectors)
      ensures buffer[..] == if ok then Splice(old(buffer[..]), at, data[SECTOR * sector..SECTOR * sector + SECTOR])
                            else old(buffer[..])
    {
      if sector >= sectors {
        return false;
      }
      for i := 0 to SECTOR
        invariant buffer[..] == Splice(old(buffer[..]), at, data[SECTOR * sector..SECTOR * sector + i])
      {
        buffer[at + i] := data[SECTOR * sector + i];
        assert data[SECTOR * sector..SECTOR * sector + (i + 1)]
            == data[SECTOR * sector..SECTOR * sector + i] + [data[SECTOR * sector + i]];
      }
      return true;
    }

    /** Copies buffer[at..at + 512] over one sector. */
    method WriteSector(sector: U32, buffer: array<Byte>, at: nat) returns (ok: bool)
      requires Valid() && buffer != data && at + SECTOR <= buffer.Length
      modifies data
      ensures ok == (sector < sectors)
      ensures data[..] == if ok then Splice(old(data[..]), SECTOR * sector, buffer[at..at + SECTOR])
                          else old(data[..])
    {
      if sector >= sectors {
        return false;
      }
      for i := 0 to SECTOR
        invariant data[..] == Splice(old(data[..]), SECTOR * sector, buffer[at..at + i])
      {
        data[SECTOR * sector + i] := buffer[at + i];
        assert buffer[at..at + (i + 1)] == buffer[at..at + i] + [buffer[at + i]];
      }
      return true;
    }
  }
}
