/** Files as chains of clusters in the allocation table, over the root directory. */
module Chains {
  import opened Bytes
  import opened DiskIo
  import opened Layout
  import opened Directory

  type Chain = seq<nat>

  /** The table links the clusters of ch in order and ends the chain after the last. */
  predicate ChainOk(fat: seq<U32>, ch: Chain)
  {
    && |ch| > 0
    && (forall k :: 0 <= k < |ch| ==> ROOT < ch[k] < |fat|)
    && (forall k {:trigger fat[ch[k]]} :: 0 <= k < |ch| - 1 ==> fat[ch[k]] == ch[k + 1])
    && fat[ch[|ch| - 1]] >= FIRST_END_MARK
  }

  /** Every chain follows the table from the file's first cluster and is long enough for its size. */
  predicate FilesOk(img: Image, chains: map<nat, Chain>)
    requires ROOT < |img.heap| && |img.heap[ROOT]| == ROOT_BYTES
  {
    forall s :: s in chains ==>
      && SetAt(img.heap[ROOT], s)
      && ChainOk(img.fat, chains[s])
      && chains[s][0] == FirstClusterAt(img.heap[ROOT], s)
      && SizeAt(img.heap[ROOT], s) <= CLUSTER * |chains[s]|
  }

  /** owner names the one place in the one chain that a cluster occupies. */
  predicate Owned(chains: map<nat, Chain>, owner: map<nat, (nat, nat)>)
  {
    forall s, k :: s in chains && 0 <= k < |chains[s]| ==>
      chains[s][k] in owner && owner[chains[s][k]] == (s, k)
  }

  predicate ImageShape(img: Image)
  {
    && |img.fat| == |img.heap| && ROOT < |img.fat| < 0x1000_0002
    && forall c :: ROOT <= c < |img.heap| ==> |img.heap[c]| == CLUSTER
  }

  /** The invariant of the file system. */
  predicate Wf(img: Image, chains: map<nat, Chain>, owner: map<nat, (nat, nat)>, used: nat)
  {
    && ImageShape(img)
    && DirOk(img.heap[ROOT], used)
    && img.fat[ROOT] >= FIRST_END_MARK
    && chains.Keys == FileSlots(img.heap[ROOT])
    && FilesOk(img, chains)
    && Owned(chains, owner)
  }

  /** Chains are acyclic and chains of different files share no cluster. */
  lemma ChainsDisjoint(img: Image, chains: map<nat, Chain>, owner: map<nat, (nat, nat)>, used: nat,
                       s: nat, k: nat, t: nat, l: nat)
    requires Wf(img, chains, owner, used)
    requires s in chains && t in chains && k < |chains[s]| && l < |chains[t]|
    requires chains[s][k] == chains[t][l]
    ensures s == t && k == l
  {
    assert owner[chains[s][k]] == (s, k);
    assert owner[chains[t][l]] == (t, l);
  }

  /** A cluster of a chain is never free in the table. */
  lemma ChainClusterInUse(fat: seq<U32>, ch: Chain, k: nat)
    requires ChainOk(fat, ch) && k < |ch|
    ensures fat[ch[k]] != FREE
  {
    if k < |ch| - 1 {
      assert fat[ch[k]] == ch[k + 1];
    }
  }

  /** The numbers from lo up to hi. */
  function Range(lo: nat, hi: nat): (s: set<nat>)
    requires lo <= hi
    ensures |s| == hi - lo
    ensures forall c :: c in s <==> lo <= c < hi
    decreases hi - lo
  {
    if lo == hi then {} else {lo} + Range(lo + 1, hi)
  }

  /** A sequence without repetition drawn from a finite set is no longer than the set is large. */
  lemma {:induction false} DistinctBound(ch: Chain, s: set<nat>)
    requires forall k :: 0 <= k < |ch| ==> ch[k] in s
    requires forall k, l :: 0 <= k < l < |ch| ==> ch[k] != ch[l]
    ensures |ch| <= |s|
  {
    if ch == [] {
    } else {
      var last := |ch| - 1;
      DistinctBound(ch[..last], s - {ch[last]});
    }
  }

  /** No chain is longer than the volume has clusters besides the root. */
  lemma ChainLength(img: Image, chains: map<nat, Chain>, owner: map<nat, (nat, nat)>, used: nat, s: nat)
    requires Wf(img, chains, owner, used) && s in chains
    ensures |chains[s]| <= |img.fat| - 3
  {
    var ch := chains[s];
    assert ChainOk(img.fat, ch);
    forall k, l | 0 <= k < l < |ch|
      ensures ch[k] != ch[l]
    {
      assert owner[ch[k]] == (s, k) && owner[ch[l]] == (s, l);
    }
    DistinctBound(ch, Range(3, |img.fat|));
  }

  // ----- contents

  function ByteAt(img: Image, ch: Chain, j: nat): Byte
    requires ImageShape(img) && ChainOk(img.fat, ch) && j < CLUSTER * |ch|
  {
    img.heap[ch[j / CLUSTER]][j % CLUSTER]
  }

  function Content(img: Image, ch: Chain, size: nat): seq<Byte>
    requires ImageShape(img) && ChainOk(img.fat, ch) && size <= CLUSTER * |ch|
  {
    seq(size, j requires 0 <= j < size => ByteAt(img, ch, j))
  }

  /** The contents of the file at slot s. */
  function FileAt(img: Image, chains: map<nat, Chain>, s: nat): seq<Byte>
    requires ImageShape(img) && FilesOk(img, chains) && s in chains
  {
    Content(img, chains[s], SizeAt(img.heap[ROOT], s))
  }

  /** The names that can be looked up. */
  function Names(rb: seq<Byte>): set<seq<Byte>>
    requires |rb| == ROOT_BYTES
  {
    set i: nat | i < SLOTS && SetAt(rb, i) :: NameAt(rb, i)
  }

  lemma NamesFound(rb: seq<Byte>, name: seq<Byte>)
    requires |rb| == ROOT_BYTES
    ensures name in Names(rb) <==> FindSlot(rb, name, 0).Some?
  {
    if name in Names(rb) {
      var i: nat :| i < SLOTS && SetAt(rb, i) && NameAt(rb, i) == name;
      FindSlotFirst(rb, name, 0);
      assert Named(rb, i, name);
    }
  }

  /** The directory and its chains as a map from name to contents. */
  function Files(img: Image, chains: map<nat, Chain>): map<seq<Byte>, seq<Byte>>
    requires ImageShape(img) && FilesOk(img, chains)
    requires chains.Keys == FileSlots(img.heap[ROOT])
  {
    map name | name in Names(img.heap[ROOT]) ::
      (NamesFound(img.heap[ROOT], name); FileAt(img, chains, FindSlot(img.heap[ROOT], name, 0).value))
  }

  /** The contents of a name, through its lookup. */
  lemma FilesLookup(img: Image, chains: map<nat, Chain>, name: seq<Byte>)
    requires ImageShape(img) && FilesOk(img, chains) && chains.Keys == FileSlots(img.heap[ROOT])
    ensures name in Files(img, chains) <==> Lookup(img.heap[ROOT], name).Some?
    ensures Lookup(img.heap[ROOT], name).Some? ==>
              var s := Lookup(img.heap[ROOT], name).value.slot;
              s in chains && Files(img, chains)[name] == FileAt(img, chains, s)
  {
    NamesFound(img.heap[ROOT], name);
  }

  // ----- the four changes the file system makes

  function FatAfterGrow(fat: seq<U32>, ch: Chain, c: nat): seq<U32>
    requires ChainOk(fat, ch) && c < |fat| < 0x1000_0002
  {
    fat[c := END_OF_CHAIN][ch[|ch| - 1] := c]
  }

  /** A chain that avoids the changed entries stays a chain. */
  lemma ChainKept(fat: seq<U32>, fat': seq<U32>, ch: Chain)
    requires ChainOk(fat, ch) && |fat'| == |fat|
    requires forall k :: 0 <= k < |ch| ==> fat'[ch[k]] == fat[ch[k]]
    ensures ChainOk(fat', ch)
  {
  }

  lemma GrowOne(fat: seq<U32>, ch: Chain, c: nat)
    requires ChainOk(fat, ch) && ROOT < c < |fat| < 0x1000_0002 && fat[c] == FREE
    requires forall k :: 0 <= k < |ch| - 1 ==> ch[k] != ch[|ch| - 1]
    ensures ChainOk(FatAfterGrow(fat, ch, c), ch + [c])
  {
    forall k | 0 <= k < |ch|
      ensures ch[k] != c
    {
      ChainClusterInUse(fat, ch, k);
    }
  }

  lemma FilesOkAfterGrow(img: Image, chains: map<nat, Chain>, s: nat, c: nat)
    requires ImageShape(img) && FilesOk(img, chains) && s in chains
    requires ROOT < c < |img.fat| && img.fat[c] == FREE
    requires forall t, k :: t in chains && 0 <= k < |chains[t]| ==> chains[t][k] != c
    requires forall t, k :: t in chains && 0 <= k < |chains[t]| && (t != s || k != |chains[s]| - 1) ==>
               chains[t][k] != chains[s][|chains[s]| - 1]
    ensures FilesOk(img.(fat := FatAfterGrow(img.fat, chains[s], c)), chains[s := chains[s] + [c]])
  {
    GrowOne(img.fat, chains[s], c);
    forall t | t in chains && t != s
      ensures ChainOk(FatAfterGrow(img.fat, chains[s], c), chains[t])
    {
      ChainKept(img.fat, FatAfterGrow(img.fat, chains[s], c), chains[t]);
    }
  }

  /** No chain uses a free cluster. */
  lemma FreeUnchained(img: Image, chains: map<nat, Chain>, c: nat)
    requires ImageShape(img) && FilesOk(img, chains) && c < |img.fat| && img.fat[c] == FREE
    ensures forall t, k :: t in chains && 0 <= k < |chains[t]| ==> chains[t][k] != c
  {
    forall t, k | t in chains && 0 <= k < |chains[t]|
      ensures chains[t][k] != c
    {
      ChainClusterInUse(img.fat, chains[t], k);
    }
  }

  /** The last cluster of a chain occurs nowhere else. */
  lemma LastUnshared(chains: map<nat, Chain>, owner: map<nat, (nat, nat)>, s: nat)
    requires Owned(chains, owner) && s in chains && |chains[s]| > 0
    ensures forall t, k :: t in chains && 0 <= k < |chains[t]| && (t != s || k != |chains[s]| - 1) ==>
              chains[t][k] != chains[s][|chains[s]| - 1]
  {
    assert owner[chains[s][|chains[s]| - 1]] == (s, |chains[s]| - 1);
  }

  /** The k-th cluster of a chain occurs nowhere else in it. */
  lemma ClusterOnce(chains: map<nat, Chain>, owner: map<nat, (nat, nat)>, s: nat, k: nat)
    requires Owned(chains, owner) && s in chains && k < |chains[s]|
    ensures forall l :: 0 <= l < |chains[s]| && l != k ==> chains[s][l] != chains[s][k]
  {
    assert owner[chains[s][k]] == (s, k);
  }

  lemma OwnedAfterGrow(chains: map<nat, Chain>, owner: map<nat, (nat, nat)>, s: nat, ch: Chain, c: nat)
    requires Owned(chains, owner)
    requires ch == if s in chains then chains[s] else []
    requires forall t, k :: t in chains && 0 <= k < |chains[t]| ==> chains[t][k] != c
    ensures Owned(chains[s := ch + [c]], owner[c := (s, |ch|)])
  {
  }

  /** Appending a free cluster to the chain of s. */
  lemma GrowChain(img: Image, chains: map<nat, Chain>, owner: map<nat, (nat, nat)>, used: nat, s: nat, c: nat)
    requires Wf(img, chains, owner, used) && s in chains
    requires ROOT < c < |img.fat| && img.fat[c] == FREE
    ensures ChainOk(img.fat, chains[s])
    ensures var ch := chains[s];
            Wf(img.(fat := FatAfterGrow(img.fat, ch, c)), chains[s := ch + [c]], owner[c := (s, |ch|)], used)
  {
    FreeUnchained(img, chains, c);
    LastUnshared(chains, owner, s);
    FilesOkAfterGrow(img, chains, s, c);
    OwnedAfterGrow(chains, owner, s, chains[s], c);
    assert chains[s := chains[s] + [c]].Keys == chains.Keys;
  }

  /** Rewriting one cluster of a chain. */
  lemma RewriteCluster(img: Image, chains: map<nat, Chain>, owner: map<nat, (nat, nat)>, used: nat,
                       s: nat, k: nat, t: seq<Byte>)
    requires Wf(img, chains, owner, used) && s in chains && k < |chains[s]| && |t| == CLUSTER
    ensures Wf(img.(heap := img.heap[chains[s][k] := t]), chains, owner, used)
    ensures img.(heap := img.heap[chains[s][k] := t]).heap[ROOT] == img.heap[ROOT]
  {
  }

  /** Recording a new size for the file at slot s. */
  lemma ResizeFile(img: Image, chains: map<nat, Chain>, owner: map<nat, (nat, nat)>, used: nat, s: nat, size: U64)
    requires Wf(img, chains, owner, used) && s in chains && size <= CLUSTER * |chains[s]|
    ensures SetAt(img.heap[ROOT], s)
    ensures Wf(img.(heap := img.heap[ROOT := SetSize(img.heap[ROOT], s, size)]), chains, owner, used)
    ensures forall u :: u in chains ==>
              SizeAt(SetSize(img.heap[ROOT], s, size), u) == if u == s then size else SizeAt(img.heap[ROOT], u)
  {
    var rb' := SetSize(img.heap[ROOT], s, size);
    SetSizeOk(img.heap[ROOT], used, s, size);
    forall u | u in chains
      ensures SameFile(img.heap[ROOT], rb', u)
      ensures SizeAt(rb', u) == if u == s then size else SizeAt(img.heap[ROOT], u)
    {
    }
  }

  /** Recording a size keeps the invariant exactly if the chain can hold it. */
  lemma ResizeIff(img: Image, chains: map<nat, Chain>, owner: map<nat, (nat, nat)>, used: nat, s: nat, size: U64)
    requires Wf(img, chains, owner, used) && s in chains
    ensures Wf(img.(heap := img.heap[ROOT := SetSize(img.heap[ROOT], s, size)]), chains, owner, used)
       <==> size <= CLUSTER * |chains[s]|
  {
    if size <= CLUSTER * |chains[s]| {
      ResizeFile(img, chains, owner, used, s, size);
    } else {
      SetSizeSelf(img.heap[ROOT], used, s, size);
    }
  }

  lemma FilesOkAfterAdd(img: Image, img': Image, chains: map<nat, Chain>, slot: nat, c: nat)
    requires ImageShape(img) && ImageShape(img') && FilesOk(img, chains)
    requires ROOT < c < |img.fat| && img'.fat == img.fat[c := END_OF_CHAIN]
    requires forall t, k :: t in chains && 0 <= k < |chains[t]| ==> chains[t][k] != c
    requires forall u :: u in chains ==> SameFile(img.heap[ROOT], img'.heap[ROOT], u)
    requires forall u :: u in chains ==> SizeAt(img'.heap[ROOT], u) == SizeAt(img.heap[ROOT], u)
    requires SetAt(img'.heap[ROOT], slot) && FirstClusterAt(img'.heap[ROOT], slot) == c
    requires SizeAt(img'.heap[ROOT], slot) == 0 && slot !in chains
    ensures FilesOk(img', chains[slot := [c]])
  {
    forall u | u in chains
      ensures ChainOk(img'.fat, chains[u])
    {
      ChainKept(img.fat, img'.fat, chains[u]);
    }
  }

  /** Adding an empty file whose chain is one fresh cluster. */
  lemma AddFile(img: Image, chains: map<nat, Chain>, owner: map<nat, (nat, nat)>, used: nat,
                c: nat, rb': seq<Byte>, name: CString, attributes: U16)
    requires Wf(img, chains, owner, used)
    requires ROOT < c < |img.fat| && img.fat[c] == FREE
    requires Appended(img.heap[ROOT], rb', used, name, attributes, c)
    ensures used !in chains
    ensures Wf(Image(img.fat[c := END_OF_CHAIN], img.heap[ROOT := rb']), chains[used := [c]],
               owner[c := (used, 0)], used + 2 + NameSlots(|name|))
    ensures forall u :: u in chains ==> SizeAt(rb', u) == SizeAt(img.heap[ROOT], u)
  {
    hide SetAt, NameAt, SizeAt, FirstClusterAt;
    AppendedOk(img.heap[ROOT], rb', used, name, attributes, c);
    FreeUnchained(img, chains, c);
    var img' := Image(img.fat[c := END_OF_CHAIN], img.heap[ROOT := rb']);
    assert ImageShape(img');
    FilesOkAfterAdd(img, img', chains, used, c);
    OwnedAfterGrow(chains, owner, used, [], c);
    assert [] + [c] == [c];
  }
}
