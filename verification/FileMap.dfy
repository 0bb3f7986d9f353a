/** How writes and creates look on the map from names to contents. */
module FileMap {
  import opened Bytes
  import opened DiskIo
  import opened Layout
  import opened Directory
  import opened Chains
  import opened Contents

  /** Only the chain of s changed, and it only got longer. */
  predicate Extended(chains: map<nat, Chain>, chains': map<nat, Chain>, s: nat)
    requires s in chains
  {
    && chains'.Keys == chains.Keys
    && (forall t :: t in chains && t != s ==> chains'[t] == chains[t])
    && |chains[s]| <= |chains'[s]| && chains'[s][..|chains[s]|] == chains[s]
  }

  /** The two name maps have the same names and differ at most in the contents of one. */
  predicate OnlyChanged(files: map<seq<Byte>, seq<Byte>>, files': map<seq<Byte>, seq<Byte>>, name: seq<Byte>)
  {
    files'.Keys == files.Keys && forall n :: n in files && n != name ==> files'[n] == files[n]
  }

  /** No lookup changed, except possibly that of one name. */
  ghost predicate OthersFound(rb: seq<Byte>, rb': seq<Byte>, name: seq<Byte>)
    requires |rb| == |rb'| == ROOT_BYTES
  {
    forall n :: n != name ==> Lookup(rb', n) == Lookup(rb, n)
  }

  /** The image after the size of the file at slot s is recorded. */
  function Resized(img: Image, s: nat, size: U64): Image
    requires ROOT < |img.heap| && |img.heap[ROOT]| == ROOT_BYTES && s + 1 < SLOTS
  {
    img.(heap := img.heap[ROOT := SetSize(img.heap[ROOT], s, size)])
  }

  /** A file other than the one written keeps its contents. */
  lemma OtherFileKept(img: Image, chains: map<nat, Chain>,
                      img': Image, chains': map<nat, Chain>, owner': map<nat, (nat, nat)>, used': nat, s: nat, t: nat)
    requires ImageShape(img) && FilesOk(img, chains) && Wf(img', chains', owner', used') && |img'.heap| == |img.heap|
    requires s in chains' && t in chains && t in chains' && t != s && chains'[t] == chains[t]
    requires forall c :: ROOT < c < |img.heap| && c !in chains'[s] ==> img'.heap[c] == img.heap[c]
    requires SizeAt(img'.heap[ROOT], t) == SizeAt(img.heap[ROOT], t)
    ensures FileAt(img', chains', t) == FileAt(img, chains, t)
  {
    var ch := chains[t];
    forall k | 0 <= k < |ch|
      ensures img'.heap[ch[k]] == img.heap[ch[k]]
    {
      assert owner'[chains'[t][k]] == (t, k);
      assert forall l :: 0 <= l < |chains'[s]| ==> owner'[chains'[s][l]] == (s, l);
    }
    ContentKept(img, img', ch, SizeAt(img.heap[ROOT], t));
  }

  /** From (img, chains) to (mid, chains') only the file at slot s was written: the bytes d went to
      position p, its chain may have grown by clusters that were free, and the directory is as it was. */
  ghost predicate Advanced(img: Image, chains: map<nat, Chain>, mid: Image, chains': map<nat, Chain>,
                           s: nat, p: nat, d: seq<Byte>)
  {
    && s in chains && s in chains' && Extended(chains, chains', s)
    && |FreeSet(mid.fat)| + |chains'[s]| == |FreeSet(img.fat)| + |chains[s]|
    && |mid.heap| == |img.heap| && ROOT < |img.heap| && mid.heap[ROOT] == img.heap[ROOT]
    && OutsideKept(img, mid, chains'[s])
    && Stored(img, chains[s]) && Stored(mid, chains'[s]) && BytesWritten(img, chains[s], mid, chains'[s], p, d)
  }

  /** The clusters the table marks free. */
  function FreeSet(fat: seq<U32>): set<nat>
  {
    set c: nat | ROOT <= c < |fat| && fat[c] == FREE
  }

  /** Lookups see the new size of the file at slot s and nothing else. */
  ghost predicate LookupResized(rb: seq<Byte>, rb': seq<Byte>, s: nat, size: U64)
    requires |rb| == |rb'| == ROOT_BYTES
  {
    forall n :: Lookup(rb', n) ==
      var r := Lookup(rb, n); if r.Some? && r.value.slot == s then Some(r.value.(size := size)) else r
  }

  /** What a write did, as the file operations establish it: the clusters of s were written, giving
      mid, and then a new size may have been recorded, giving img'. */
  ghost predicate Written(img: Image, chains: map<nat, Chain>, owner: map<nat, (nat, nat)>, used: nat,
                          mid: Image, img': Image, chains': map<nat, Chain>, owner': map<nat, (nat, nat)>,
                          s: nat, p: nat, d: seq<Byte>)
  {
    && Wf(img, chains, owner, used) && Wf(mid, chains', owner', used) && Wf(img', chains', owner', used)
    && Advanced(img, chains, mid, chains', s, p, d)
    && SetAt(img.heap[ROOT], s) && SetAt(img'.heap[ROOT], s)
    && (img' == mid || img' == Resized(mid, s, SizeAt(img'.heap[ROOT], s)))
  }

  lemma WrittenLookup(img: Image, chains: map<nat, Chain>, owner: map<nat, (nat, nat)>, used: nat,
                      mid: Image, img': Image, chains': map<nat, Chain>, owner': map<nat, (nat, nat)>,
                      s: nat, p: nat, d: seq<Byte>)
    requires Written(img, chains, owner, used, mid, img', chains', owner', s, p, d)
    ensures LookupResized(img.heap[ROOT], img'.heap[ROOT], s, SizeAt(img'.heap[ROOT], s))
  {
    hide BytesWritten, SetSize, DirOk, FilesOk;
    var size' := SizeAt(img'.heap[ROOT], s);
    forall n: seq<Byte>
      ensures Lookup(img'.heap[ROOT], n) ==
        var r := Lookup(img.heap[ROOT], n); if r.Some? && r.value.slot == s then Some(r.value.(size := size')) else r
    {
      if img' != mid {
        SetSizeLookup(img.heap[ROOT], used, s, size', n);
      }
    }
  }

  /** On the name map only the contents of the written file change: its bytes are overlaid, up to its new size. */
  lemma WrittenFile(img: Image, chains: map<nat, Chain>, owner: map<nat, (nat, nat)>, used: nat,
                    mid: Image, img': Image, chains': map<nat, Chain>, owner': map<nat, (nat, nat)>,
                    s: nat, p: nat, d: seq<Byte>, n: seq<Byte>)
    requires Written(img, chains, owner, used, mid, img', chains', owner', s, p, d)
    requires LookupResized(img.heap[ROOT], img'.heap[ROOT], s, SizeAt(img'.heap[ROOT], s))
    ensures n in Files(img, chains) <==> n in Files(img', chains')
    ensures n in Files(img, chains) ==>
              var r := Lookup(img.heap[ROOT], n);
              && r.Some?
              && (r.value.slot != s ==> Files(img', chains')[n] == Files(img, chains)[n])
              && (r.value.slot == s ==> (Overlaid(Files(img, chains)[n], Files(img', chains')[n], p, d)
                                         && |Files(img', chains')[n]| == SizeAt(img'.heap[ROOT], s)))
  {
    hide BytesWritten, SetSize, DirOk, FilesOk, Files, Overlaid;
    FilesLookup(img, chains, n);
    FilesLookup(img', chains', n);
    if n in Files(img, chains) {
      var t := Lookup(img.heap[ROOT], n).value.slot;
      assert Lookup(img'.heap[ROOT], n).value.slot == t;
      if t != s {
        OtherFileKept(img, chains, img', chains', owner', used, s, t);
      } else {
        WrittenContent(img, chains, mid, img', chains', s, p, d);
      }
    }
  }

  /** Two names found at one slot are the same name. */
  lemma SlotName(rb: seq<Byte>, n: seq<Byte>, m: seq<Byte>)
    requires |rb| == ROOT_BYTES && Lookup(rb, n).Some? && Lookup(rb, m).Some?
    requires Lookup(rb, n).value.slot == Lookup(rb, m).value.slot
    ensures n == m
  {
  }

  lemma WrittenFiles(img: Image, chains: map<nat, Chain>, owner: map<nat, (nat, nat)>, used: nat,
                     mid: Image, img': Image, chains': map<nat, Chain>, owner': map<nat, (nat, nat)>,
                     name: seq<Byte>, s: nat, p: nat, d: seq<Byte>)
    requires Written(img, chains, owner, used, mid, img', chains', owner', s, p, d)
    requires FindSlot(img.heap[ROOT], name, 0) == Some(s)
    ensures OnlyChanged(Files(img, chains), Files(img', chains'), name)
    ensures name in Files(img, chains)
    ensures Overlaid(Files(img, chains)[name], Files(img', chains')[name], p, d)
    ensures |Files(img', chains')[name]| == SizeAt(img'.heap[ROOT], s)
    ensures OthersFound(img.heap[ROOT], img'.heap[ROOT], name)
    ensures Lookup(img'.heap[ROOT], name)
         == Some(Found(s, FirstClusterAt(img.heap[ROOT], s), SizeAt(img'.heap[ROOT], s)))
  {
    hide Written, Files, Overlaid, FindSlot, LookupResized, SetAt;
    WrittenShape(img, chains, owner, used, mid, img', chains', owner', s, p, d);
    var rb, rb' := img.heap[ROOT], img'.heap[ROOT];
    WrittenLookup(img, chains, owner, used, mid, img', chains', owner', s, p, d);
    forall n: seq<Byte>
      ensures Lookup(rb', n) ==
        var r := Lookup(rb, n); if r.Some? && r.value.slot == s then Some(r.value.(size := SizeAt(rb', s))) else r
    {
      LookupResizedAt(rb, rb', s, SizeAt(rb', s), n);
    }
    forall n: seq<Byte>
      ensures n in Files(img, chains) <==> n in Files(img', chains')
      ensures n in Files(img, chains) && n != name ==> Files(img', chains')[n] == Files(img, chains)[n]
      ensures n != name ==> Lookup(rb', n) == Lookup(rb, n)
    {
      WrittenFile(img, chains, owner, used, mid, img', chains', owner', s, p, d, n);
      if n != name && Lookup(rb, n).Some? && Lookup(rb, n).value.slot == s {
        SlotName(rb, n, name);
      }
    }
    WrittenFile(img, chains, owner, used, mid, img', chains', owner', s, p, d, name);
    WrittenName(img, chains, owner, used, mid, img', chains', owner', s, p, d, name);
  }

  lemma WrittenShape(img: Image, chains: map<nat, Chain>, owner: map<nat, (nat, nat)>, used: nat,
                     mid: Image, img': Image, chains': map<nat, Chain>, owner': map<nat, (nat, nat)>,
                     s: nat, p: nat, d: seq<Byte>)
    requires Written(img, chains, owner, used, mid, img', chains', owner', s, p, d)
    ensures ImageShape(img) && ImageShape(img') && FilesOk(img, chains) && FilesOk(img', chains')
    ensures chains.Keys == FileSlots(img.heap[ROOT]) && chains'.Keys == FileSlots(img'.heap[ROOT])
    ensures SetAt(img.heap[ROOT], s) && SetAt(img'.heap[ROOT], s) && s + 1 < SLOTS
  {
  }

  lemma LookupResizedAt(rb: seq<Byte>, rb': seq<Byte>, s: nat, size: U64, n: seq<Byte>)
    requires |rb| == |rb'| == ROOT_BYTES && LookupResized(rb, rb', s, size)
    ensures Lookup(rb', n) ==
      var r := Lookup(rb, n); if r.Some? && r.value.slot == s then Some(r.value.(size := size)) else r
  {
  }

  lemma WrittenName(img: Image, chains: map<nat, Chain>, owner: map<nat, (nat, nat)>, used: nat,
                    mid: Image, img': Image, chains': map<nat, Chain>, owner': map<nat, (nat, nat)>,
                    s: nat, p: nat, d: seq<Byte>, name: seq<Byte>)
    requires Written(img, chains, owner, used, mid, img', chains', owner', s, p, d)
    requires FindSlot(img.heap[ROOT], name, 0) == Some(s)
    ensures name in Files(img, chains)
  {
    FilesLookup(img, chains, name);
  }

  /** Facts about the root that the invariant gives. */
  lemma SameRootShape(img: Image, chains: map<nat, Chain>, owner: map<nat, (nat, nat)>, used: nat)
    requires Wf(img, chains, owner, used)
    ensures ImageShape(img) && FilesOk(img, chains) && chains.Keys == FileSlots(img.heap[ROOT])
    ensures DirOk(img.heap[ROOT], used)
    ensures forall s :: s in chains ==> SetAt(img.heap[ROOT], s)
  {
  }

  lemma WrittenContent(img: Image, chains: map<nat, Chain>, mid: Image, img': Image, chains': map<nat, Chain>,
                       s: nat, p: nat, d: seq<Byte>)
    requires ImageShape(img) && FilesOk(img, chains) && ImageShape(img') && FilesOk(img', chains')
    requires s in chains && s in chains' && Stored(img, chains[s]) && Stored(mid, chains'[s])
    requires BytesWritten(img, chains[s], mid, chains'[s], p, d)
    requires img' == mid || img' == Resized(mid, s, SizeAt(img'.heap[ROOT], s))
    ensures Overlaid(FileAt(img, chains, s), FileAt(img', chains', s), p, d)
    ensures |FileAt(img', chains', s)| == SizeAt(img'.heap[ROOT], s)
  {
    hide BytesWritten, Overlaid, SetSize;
    var size, size' := SizeAt(img.heap[ROOT], s), SizeAt(img'.heap[ROOT], s);
    ContentWritten(img, chains[s], size, mid, chains'[s], size', p, d);
    ContentKept(mid, img', chains'[s], size');
  }

  /** What creating a file did: slot `used` now holds an empty file whose chain is cluster c, the
      lowest free one. A new name maps to nothing; a name already in use keeps its contents. */
  ghost predicate Created(img: Image, chains: map<nat, Chain>, used: nat,
                          img': Image, chains': map<nat, Chain>, used': nat, name: seq<Byte>, c: U32)
  {
    && ImageShape(img) && FilesOk(img, chains) && chains.Keys == FileSlots(img.heap[ROOT])
    && ImageShape(img') && FilesOk(img', chains') && chains'.Keys == FileSlots(img'.heap[ROOT])
    && used' == used + 2 + NameSlots(|name|) <= SLOTS
    && chains' == chains[used := [c as nat]] && used !in chains
    && ROOT < c < |img.fat| && img.fat[c] == FREE && (forall k :: ROOT <= k < c ==> img.fat[k] != FREE)
    && img'.fat == img.fat[c := END_OF_CHAIN]
    && SetAt(img'.heap[ROOT], used) && SizeAt(img'.heap[ROOT], used) == 0
    && Files(img', chains')
       == (if name in Files(img, chains) then Files(img, chains) else Files(img, chains)[name := []])
    && (forall n :: Lookup(img'.heap[ROOT], n) == LookupCreated(img.heap[ROOT], used, name, c, n))
  }

  /** Lookups after a file was added at slot `used`: an existing file of the same name still comes first. */
  function LookupCreated(rb: seq<Byte>, used: nat, name: seq<Byte>, c: U32, n: seq<Byte>): Option<Found>
    requires |rb| == ROOT_BYTES
  {
    if Lookup(rb, n).None? && n == name then Some(Found(used, c, 0)) else Lookup(rb, n)
  }

  lemma AddedFile(img: Image, chains: map<nat, Chain>, owner: map<nat, (nat, nat)>, used: nat,
                  img': Image, owner': map<nat, (nat, nat)>, used': nat,
                  name: CString, attributes: U16, c: U32, n: seq<Byte>)
    requires Wf(img, chains, owner, used) && used !in chains
    requires Wf(img', chains[used := [c as nat]], owner', used') && |img'.heap| == |img.heap|
    requires Appended(img.heap[ROOT], img'.heap[ROOT], used, name, attributes, c)
    requires forall k :: ROOT < k < |img.heap| && k != c ==> img'.heap[k] == img.heap[k]
    ensures Lookup(img'.heap[ROOT], n) == LookupCreated(img.heap[ROOT], used, name, c, n)
    ensures n in Files(img', chains[used := [c as nat]]) <==> n in Files(img, chains) || n == name
    ensures n in Files(img, chains) ==> Files(img', chains[used := [c as nat]])[n] == Files(img, chains)[n]
    ensures n !in Files(img, chains) && n == name ==> Files(img', chains[used := [c as nat]])[n] == []
  {
    hide Wf, Appended, DirOk, Files, FilesOk, SetAt, FindSlot;
    SameRootShape(img, chains, owner, used);
    SameRootShape(img', chains[used := [c as nat]], owner', used');
    AppendedLookup(img.heap[ROOT], img'.heap[ROOT], used, name, attributes, c, n);
    FilesLookup(img, chains, n);
    FilesLookup(img', chains[used := [c as nat]], n);
    if n in Files(img, chains) {
      OtherFileKept(img, chains, img', chains[used := [c as nat]], owner', used', used,
                    Lookup(img.heap[ROOT], n).value.slot);
    }
  }

  lemma AddedFiles(img: Image, chains: map<nat, Chain>, owner: map<nat, (nat, nat)>, used: nat,
                   img': Image, owner': map<nat, (nat, nat)>, used': nat,
                   name: CString, attributes: U16, c: U32)
    requires Wf(img, chains, owner, used) && used !in chains
    requires Wf(img', chains[used := [c as nat]], owner', used') && |img'.heap| == |img.heap|
    requires Appended(img.heap[ROOT], img'.heap[ROOT], used, name, attributes, c)
    requires forall k :: ROOT < k < |img.heap| && k != c ==> img'.heap[k] == img.heap[k]
    requires used' == used + 2 + NameSlots(|name|)
    requires ROOT < c < |img.fat| && img.fat[c] == FREE && (forall k :: ROOT <= k < c ==> img.fat[k] != FREE)
    requires img'.fat == img.fat[c := END_OF_CHAIN]
    ensures Created(img, chains, used, img', chains[used := [c as nat]], used', name, c)
  {
    hide Wf, Appended, DirOk, Files, FilesOk, SetAt, FindSlot, Lookup;
    SameRootShape(img, chains, owner, used);
    SameRootShape(img', chains[used := [c as nat]], owner', used');
    var f, f' := Files(img, chains), Files(img', chains[used := [c as nat]]);
    forall n: seq<Byte>
      ensures n in f' <==> n in f || n == name
      ensures n in f ==> f'[n] == f[n]
      ensures n !in f && n == name ==> f'[n] == []
      ensures Lookup(img'.heap[ROOT], n) == LookupCreated(img.heap[ROOT], used, name, c, n)
    {
      AddedFile(img, chains, owner, used, img', owner', used', name, attributes, c, n);
    }
    AppendedSize(img.heap[ROOT], img'.heap[ROOT], used, name, attributes, c);
    assert f'.Keys == if name in f then f.Keys else f.Keys + {name};
    assert f' == if name in f then f else f[name := []];
  }

  lemma AppendedSize(rb: seq<Byte>, rb': seq<Byte>, used: nat, name: CString, attributes: U16, first: U32)
    requires Appended(rb, rb', used, name, attributes, first)
    ensures used + 2 + NameSlots(|name|) <= SLOTS && SetAt(rb', used) && SizeAt(rb', used) == 0
  {
  }

  /** Rewriting the cluster of an empty file changes no contents. */
  lemma RewriteEmpty(img: Image, chains: map<nat, Chain>, owner: map<nat, (nat, nat)>, used: nat,
                     s: nat, t: seq<Byte>)
    requires Wf(img, chains, owner, used) && s in chains && |chains[s]| == 1 && SizeAt(img.heap[ROOT], s) == 0
    requires |t| == CLUSTER
    ensures ROOT < chains[s][0] < |img.heap|
    ensures var img' := img.(heap := img.heap[chains[s][0] := t]);
            && Wf(img', chains, owner, used) && img'.heap[ROOT] == img.heap[ROOT]
            && Files(img', chains) == Files(img, chains)
  {
    hide DirOk, Files, FindSlot;
    assert ChainOk(img.fat, chains[s]);
    RewriteCluster(img, chains, owner, used, s, 0, t);
    var img' := img.(heap := img.heap[chains[s][0] := t]);
    forall n: seq<Byte>
      ensures n in Files(img', chains) <==> n in Files(img, chains)
      ensures n in Files(img, chains) ==> Files(img', chains)[n] == Files(img, chains)[n]
    {
      FilesLookup(img, chains, n);
      FilesLookup(img', chains, n);
      if n in Files(img, chains) && Lookup(img.heap[ROOT], n).value.slot != s {
        OtherFileKept(img, chains, img', chains, owner, used, s, Lookup(img.heap[ROOT], n).value.slot);
      }
    }
  }

  /** Clearing the cluster of a file just created leaves it created. */
  lemma CreatedRewrite(img: Image, chains: map<nat, Chain>, used: nat, img': Image, chains': map<nat, Chain>,
                       owner': map<nat, (nat, nat)>, used': nat, name: seq<Byte>, c: U32, t: seq<Byte>)
    requires Created(img, chains, used, img', chains', used', name, c) && |t| == CLUSTER
    requires Wf(img', chains', owner', used')
    ensures ROOT < c < |img'.heap| && used in chains' && chains'[used] == [c as nat]
    ensures Wf(img'.(heap := img'.heap[c := t]), chains', owner', used')
    ensures Created(img, chains, used, img'.(heap := img'.heap[c := t]), chains', used', name, c)
  {
    hide DirOk, Files, FindSlot, Lookup;
    RewriteEmpty(img', chains', owner', used', used, t);
  }
}
