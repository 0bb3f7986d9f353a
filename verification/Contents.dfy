/** What cluster writes and chain growth mean for the bytes of files. */
module Contents {
  import opened Bytes
  import opened DiskIo
  import opened Layout
  import opened Directory
  import opened Chains

  /** A chain with its image: the table links it and the heap holds its bytes. */
  predicate Stored(img: Image, ch: Chain)
  {
    ImageShape(img) && ChainOk(img.fat, ch)
  }

  /** The k-th cluster of ch occurs only once. */
  predicate Once(ch: Chain, k: nat)
    requires k < |ch|
  {
    forall l :: 0 <= l < |ch| && l != k ==> ch[l] != ch[k]
  }

  lemma StoredInWf(img: Image, chains: map<nat, Chain>, owner: map<nat, (nat, nat)>, used: nat, s: nat)
    requires Wf(img, chains, owner, used) && s in chains
    ensures Stored(img, chains[s])
  {
  }

  /** From (img, ch) to (img', ch') exactly the bytes d were stored at position p: every other byte
      that had a place in ch keeps its value. */
  predicate BytesWritten(img: Image, ch: Chain, img': Image, ch': Chain, p: nat, d: seq<Byte>)
    requires Stored(img, ch) && Stored(img', ch')
  {
    && |ch| <= |ch'| && ch'[..|ch|] == ch
    && (d != [] ==> p + |d| <= CLUSTER * |ch'|)
    && (forall j :: p <= j < p + |d| ==> j < CLUSTER * |ch'| && ByteAt(img', ch', j) == d[j - p])
    && (forall j :: 0 <= j < CLUSTER * |ch| && !(p <= j < p + |d|) ==> ByteAt(img', ch', j) == ByteAt(img, ch, j))
  }

  /** Clusters outside ch are untouched. */
  predicate OutsideKept(img: Image, img': Image, ch: Chain)
    requires |img.heap| == |img'.heap|
  {
    forall c :: 0 <= c < |img.heap| && c !in ch ==> img'.heap[c] == img.heap[c]
  }

  /** Growing the chain without touching the heap stores nothing. */
  lemma WrittenExtend(img: Image, ch: Chain, img1: Image, ch1: Chain, img2: Image, ch2: Chain, p: nat, d: seq<Byte>)
    requires Stored(img, ch) && Stored(img1, ch1) && Stored(img2, ch2)
    requires BytesWritten(img, ch, img1, ch1, p, d)
    requires |ch1| <= |ch2| && ch2[..|ch1|] == ch1 && img2.heap == img1.heap
    ensures BytesWritten(img, ch, img2, ch2, p, d)
  {
    forall j | 0 <= j < CLUSTER * |ch1|
      ensures ByteAt(img2, ch2, j) == ByteAt(img1, ch1, j)
    {
      assert ch2[j / CLUSTER] == ch2[..|ch1|][j / CLUSTER];
    }
    forall k | 0 <= k < |ch|
      ensures ch2[k] == ch[k]
    {
      assert ch2[k] == ch2[..|ch1|][k] && ch1[k] == ch1[..|ch|][k];
    }
  }

  /** One rewritten cluster, byte by byte. */
  lemma ByteAfterRewrite(img: Image, ch: Chain, k: nat, t: seq<Byte>, j: nat)
    requires Stored(img, ch) && k < |ch| && |t| == CLUSTER && j < CLUSTER * |ch|
    requires Once(ch, k) && Stored(img.(heap := img.heap[ch[k] := t]), ch)
    ensures ByteAt(img.(heap := img.heap[ch[k] := t]), ch, j)
         == if j / CLUSTER == k then t[j % CLUSTER] else ByteAt(img, ch, j)
  {
  }

  lemma StoredRewrite(img: Image, ch: Chain, k: nat, t: seq<Byte>)
    requires Stored(img, ch) && k < |ch| && |t| == CLUSTER
    ensures Stored(img.(heap := img.heap[ch[k] := t]), ch)
  {
  }

  /** Storing t right after d, inside one cluster, stores d + t. */
  lemma WrittenChunk(img: Image, ch: Chain, img1: Image, ch1: Chain, p: nat, d: seq<Byte>, k: nat, off: nat,
                     t: seq<Byte>)
    requires Stored(img, ch) && Stored(img1, ch1) && BytesWritten(img, ch, img1, ch1, p, d)
    requires k < |ch1| && Once(ch1, k) && off + |t| <= CLUSTER && p + |d| == CLUSTER * k + off
    ensures var img2 := img1.(heap := img1.heap[ch1[k] := Splice(img1.heap[ch1[k]], off, t)]);
            Stored(img2, ch1) && BytesWritten(img, ch, img2, ch1, p, d + t)
  {
    var u := Splice(img1.heap[ch1[k]], off, t);
    var img2 := img1.(heap := img1.heap[ch1[k] := u]);
    StoredRewrite(img1, ch1, k, u);
    forall j | p <= j < p + |d + t|
      ensures j < CLUSTER * |ch1| && ByteAt(img2, ch1, j) == (d + t)[j - p]
    {
      if j < p + |d| {
        ByteAfterRewrite(img1, ch1, k, u, j);
        assert j == CLUSTER * (j / CLUSTER) + j % CLUSTER;
        assert j / CLUSTER == k ==> u[j % CLUSTER] == img1.heap[ch1[k]][j % CLUSTER];
        assert ByteAt(img1, ch1, j) == d[j - p];
      } else {
        assert j / CLUSTER == k && j % CLUSTER == j - CLUSTER * k by { DivIs(j, k); }
        ByteAfterRewrite(img1, ch1, k, u, j);
      }
    }
    forall j | 0 <= j < CLUSTER * |ch| && !(p <= j < p + |d + t|)
      ensures ByteAt(img2, ch1, j) == ByteAt(img, ch, j)
    {
      ByteAfterRewrite(img1, ch1, k, u, j);
      if j / CLUSTER == k {
        assert j == CLUSTER * k + j % CLUSTER;
      }
    }
  }

  lemma DivIs(j: nat, k: nat)
    requires CLUSTER * k <= j < CLUSTER * k + CLUSTER
    ensures j / CLUSTER == k && j % CLUSTER == j - CLUSTER * k
  {
  }

  // ----- the same on whole files

  /** c' is c after the bytes d were written at position p; bytes between the old end and p are unspecified. */
  predicate WriteEffect(c: seq<Byte>, c': seq<Byte>, p: nat, d: seq<Byte>)
  {
    && (|c'| == (if |c| < p + |d| then p + |d| else |c|) || (d == [] && |c'| == |c|))
    && (forall j :: p <= j < p + |d| ==> c'[j] == d[j - p])
    && (forall j :: 0 <= j < |c| && !(p <= j < p + |d|) ==> c'[j] == c[j])
  }

  /** As far as both go, c' is c with the bytes d written at position p. */
  predicate Overlaid(c: seq<Byte>, c': seq<Byte>, p: nat, d: seq<Byte>)
  {
    && (forall j :: p <= j < p + |d| && j < |c'| ==> c'[j] == d[j - p])
    && (forall j :: 0 <= j < |c| && j < |c'| && !(p <= j < p + |d|) ==> c'[j] == c[j])
  }

  /** How many of n bytes can be stored from position p on in a file that has `room`. */
  function Storable(room: nat, p: nat, n: nat): (k: nat)
    ensures k <= n
  {
    if p + n <= room then n else if p < room then room - p else 0
  }

  /** What is stored fits the room, and less than asked is stored only if it fills the room. */
  lemma StorableIs(room: nat, p: nat, n: nat)
    ensures var k := Storable(room, p, n);
            && k <= n && (0 < k ==> p + k <= room) && (k < n ==> room <= p + k)
  {
  }

  /** A write of the bytes d to a file that has `room`, through a handle that takes the file to have `cached` bytes and
      afterwards takes it to have cached'. A write that reaches its position and ends beyond these makes its end the end
      of the file, wherever that was; any other leaves the end of the file where it was. */
  predicate WrittenThrough(c: seq<Byte>, c': seq<Byte>, room: nat, cached: nat, cached': nat, p: nat, d: seq<Byte>)
  {
    && Overlaid(c, c', p, d) && (room <= p ==> d == [])
    && cached' == (if p < room && cached < p + |d| then p + |d| else cached)
    && |c'| == if cached' == cached then |c| else cached'
  }

  /** A handle that has the size right keeps it right, and its write has the plain effect. */
  lemma ThroughRight(c: seq<Byte>, c': seq<Byte>, room: nat, cached': nat, p: nat, d: seq<Byte>)
    requires WrittenThrough(c, c', room, |c|, cached', p, d)
    ensures WriteEffect(c, c', p, d) && cached' == |c'|
  {
  }

  /** The file gets shorter exactly if the data would end beyond what the handle takes for the end of the file, but
      before its end; and then it ends where the data ends. */
  lemma CutIff(c: seq<Byte>, c': seq<Byte>, room: nat, cached: nat, cached': nat, p: nat, data: seq<Byte>)
    requires |c| <= room
    requires WrittenThrough(c, c', room, cached, cached', p, data[..Storable(room, p, |data|)])
    ensures |c'| < |c| <==> cached < p + |data| < |c|
    ensures |c'| < |c| ==> |c'| == p + |data|
  {
  }

  lemma ContentWritten(img: Image, ch: Chain, size: nat, img': Image, ch': Chain, size': nat, p: nat, d: seq<Byte>)
    requires Stored(img, ch) && Stored(img', ch') && BytesWritten(img, ch, img', ch', p, d)
    requires size <= CLUSTER * |ch| && size' <= CLUSTER * |ch'|
    ensures Overlaid(Content(img, ch, size), Content(img', ch', size'), p, d)
  {
  }

  /** Part of one cluster is part of the file. */
  lemma ContentSlice(img: Image, ch: Chain, size: nat, k: nat, off: nat, n: nat)
    requires Stored(img, ch) && size <= CLUSTER * |ch| && k < |ch|
    requires off + n <= CLUSTER && CLUSTER * k + off + n <= size
    ensures ROOT < ch[k] < |img.heap| && |img.heap[ch[k]]| == CLUSTER
    ensures Content(img, ch, size)[CLUSTER * k + off..CLUSTER * k + off + n] == img.heap[ch[k]][off..off + n]
  {
    var a, b := Content(img, ch, size)[CLUSTER * k + off..CLUSTER * k + off + n], img.heap[ch[k]][off..off + n];
    forall i | 0 <= i < n
      ensures a[i] == b[i]
    {
      DivIs(CLUSTER * k + off + i, k);
    }
  }

  /** A chain that shares no cluster with the one written keeps its contents. */
  lemma ContentKept(img: Image, img': Image, ch: Chain, size: nat)
    requires ImageShape(img) && ImageShape(img') && ChainOk(img.fat, ch) && ChainOk(img'.fat, ch)
    requires |img.heap| == |img'.heap|
    requires forall k :: 0 <= k < |ch| ==> img'.heap[ch[k]] == img.heap[ch[k]]
    requires size <= CLUSTER * |ch|
    ensures Content(img', ch, size) == Content(img, ch, size)
  {
    forall j | 0 <= j < size
      ensures ByteAt(img', ch, j) == ByteAt(img, ch, j)
    {
    }
  }
}
