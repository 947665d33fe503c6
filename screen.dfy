/** The index bookkeeping of the `Screen` meshing in app/svads3d/screen.py.
    gmsh produces node tags, node coordinates and per-surface triangles;
    `meshing` turns tags into node ids, cuts the screen into per-camera parts
    and renumbers each part's nodes compactly; the ellipsoid parts also
    collect their Dirichlet boundary nodes without repetition.  The gmsh
    calls themselves are inputs here. */
module Screen {
  import opened Wrappers
  import opened SeqUtil

  // ----- np.unique -----

  predicate StrictlyIncreasing(s: seq<nat>)
  {
    forall a, b :: 0 <= a < b < |s| ==> s[a] < s[b]
  }

  /** x put into its place in an increasing sequence, unless already there. */
  function SortedInsert(u: seq<nat>, x: nat): (r: seq<nat>)
    ensures forall y :: y in r <==> y in u || y == x
  {
    if |u| == 0 then [x]
    else
      var n := |u| - 1;
      assert u == u[..n] + [u[n]];
      if u[n] < x then u + [x]
      else if u[n] == x then u
      else SortedInsert(u[..n], x) + [u[n]]
  }

  lemma {:induction false} SortedInsertIncreasing(u: seq<nat>, x: nat)
    requires StrictlyIncreasing(u)
    ensures StrictlyIncreasing(SortedInsert(u, x))
  {
    if |u| > 0 {
      var n := |u| - 1;
      if x < u[n] {
        var s := SortedInsert(u[..n], x);
        SortedInsertIncreasing(u[..n], x);
        forall a | 0 <= a < |s| ensures s[a] < u[n] {
          assert s[a] in s;
          if s[a] != x {
            var a' :| 0 <= a' < n && u[..n][a'] == s[a];
          }
        }
        assert SortedInsert(u, x) == s + [u[n]];
      }
    }
  }

  /** `np.unique(s)`: the distinct values of s in increasing order. */
  function Unique(s: seq<nat>): (r: seq<nat>)
    ensures forall y :: y in r <==> y in s
  {
    if |s| == 0 then []
    else
      var n := |s| - 1;
      assert s == s[..n] + [s[n]];
      SortedInsert(Unique(s[..n]), s[n])
  }

  lemma {:induction false} UniqueIncreasing(s: seq<nat>)
    ensures StrictlyIncreasing(Unique(s))
  {
    if |s| > 0 {
      var n := |s| - 1;
      UniqueIncreasing(s[..n]);
      SortedInsertIncreasing(Unique(s[..n]), s[n]);
    }
  }

  /** The position of the first occurrence of x in s. */
  function FirstIndex(s: seq<nat>, x: nat): (k: nat)
    requires x in s
    ensures k < |s| && s[k] == x && forall j :: 0 <= j < k ==> s[j] != x
  {
    if s[0] == x then 0
    else
      assert s == [s[0]] + s[1..];
      1 + FirstIndex(s[1..], x)
  }

  /** In a sequence without repetitions, the first occurrence of s[k] is k. */
  lemma FirstIndexOfIncreasing(s: seq<nat>, k: nat)
    requires StrictlyIncreasing(s) && k < |s|
    ensures FirstIndex(s, s[k]) == k
  {
  }

  /** Every value is below n, so is every distinct value. */
  lemma UniqueBounded(s: seq<nat>, n: nat)
    requires forall q :: 0 <= q < |s| ==> s[q] < n
    ensures forall k :: 0 <= k < |Unique(s)| ==> Unique(s)[k] < n
  {
    var u := Unique(s);
    forall k | 0 <= k < |u| ensures u[k] < n {
      assert u[k] in u;
    }
  }

  // ----- _get_didx_dval: ordered de-duplication -----

  /** `didx, uniqueidx = np.unique(didx, return_index=True); dval = dval[uniqueidx]`. */
  function Dedup<V>(didx: seq<nat>, dval: seq<V>): (r: (seq<nat>, seq<V>))
    requires |didx| == |dval|
    ensures |r.0| == |r.1|
  {
    var u := Unique(didx);
    (u, seq(|u|, k requires 0 <= k < |u| => dval[FirstIndex(didx, u[k])]))
  }

  /** The de-duplicated indices are strictly increasing, are exactly the given ones,
      and each keeps the value given at its first occurrence. */
  lemma DedupFirstOccurrence<V>(didx: seq<nat>, dval: seq<V>)
    requires |didx| == |dval|
    ensures var (u, v) := Dedup(didx, dval);
      StrictlyIncreasing(u) && (forall y :: y in u <==> y in didx) &&
      forall k, j :: 0 <= k < |u| && 0 <= j < |didx| && didx[j] == u[k] && (forall i :: 0 <= i < j ==> didx[i] != u[k]) ==>
        v[k] == dval[j]
  {
    UniqueIncreasing(didx);
    var (u, v) := Dedup(didx, dval);
    forall k, j | 0 <= k < |u| && 0 <= j < |didx| && didx[j] == u[k] && (forall i :: 0 <= i < j ==> didx[i] != u[k])
      ensures v[k] == dval[j]
    {
      var f := FirstIndex(didx, u[k]);
    }
  }

  // ----- meshing: tag2nid -----

  /** The last position i with tags[i] == t, if any. */
  function LastWrite(tags: seq<nat>, t: nat): (r: Option<nat>)
    ensures r.Some? ==> r.value < |tags| && tags[r.value] == t
    ensures r.None? <==> t !in tags
  {
    if |tags| == 0 then None
    else
      var n := |tags| - 1;
      assert tags == tags[..n] + [tags[n]];
      if tags[n] == t then Some(n) else LastWrite(tags[..n], t)
  }

  /** `a = zeros(size); a[tags] = arange(len(tags))`: with repeated tags the last write wins. */
  function TagTable(tags: seq<nat>, size: nat): (r: seq<nat>)
    ensures |r| == size
  {
    seq(size, t requires 0 <= t < size => match LastWrite(tags, t) case Some(i) => i case None => 0)
  }

  /** `tag2nid` in `meshing`: zeros of length 2*NN, then `tag2nid[nid2tag] = arange(NN)`;
      a tag of 2*NN or more raises IndexError. */
  function Tag2Nid(nid2tag: seq<nat>): (r: Result<seq<nat>>)
    ensures r.Ok? <==> forall i :: 0 <= i < |nid2tag| ==> nid2tag[i] < 2 * |nid2tag|
    ensures r.Err? ==> r.error == IndexError
  {
    if forall i :: 0 <= i < |nid2tag| ==> nid2tag[i] < 2 * |nid2tag| then Ok(TagTable(nid2tag, 2 * |nid2tag|))
    else Err(IndexError)
  }

  /** Every entry of tag2nid is a node id. */
  lemma Tag2NidRange(nid2tag: seq<nat>)
    requires Tag2Nid(nid2tag).Ok?
    ensures forall t :: 0 <= t < |Tag2Nid(nid2tag).value| ==> Tag2Nid(nid2tag).value[t] < |nid2tag|
  {
  }

  lemma {:induction false} LastWriteDistinct(tags: seq<nat>, i: nat)
    requires i < |tags| && forall a, b :: 0 <= a < b < |tags| ==> tags[a] != tags[b]
    ensures LastWrite(tags, tags[i]) == Some(i)
  {
    var n := |tags| - 1;
    if i < n {
      LastWriteDistinct(tags[..n], i);
    }
  }

  /** With distinct tags, tag2nid inverts nid2tag: tag2nid[nid2tag[i]] == i for every node i. */
  lemma Tag2NidInverse(nid2tag: seq<nat>, i: nat)
    requires Tag2Nid(nid2tag).Ok? && i < |nid2tag|
    requires forall a, b :: 0 <= a < b < |nid2tag| ==> nid2tag[a] != nid2tag[b]
    ensures Tag2Nid(nid2tag).value[nid2tag[i]] == i
  {
    LastWriteDistinct(nid2tag, i);
  }

  /** The array writes of `tag2nid[nid2tag] = np.arange(NN)`. */
  method BuildTag2Nid(nid2tag: seq<nat>) returns (r: Result<seq<nat>>)
    ensures r == Tag2Nid(nid2tag)
  {
    var nn := |nid2tag|;
    if exists i :: 0 <= i < nn && nid2tag[i] >= 2 * nn {
      return Err(IndexError);
    }
    var table := new nat[2 * nn](_ => 0);
    for i := 0 to nn
      invariant forall t :: 0 <= t < 2 * nn ==> table[t] == match LastWrite(nid2tag[..i], t) case Some(j) => j case None => 0
    {
      assert nid2tag[..i + 1][..i] == nid2tag[..i];
      table[nid2tag[i]] := i;
    }
    assert nid2tag[..nn] == nid2tag;
    assert table[..] == TagTable(nid2tag, 2 * nn);
    return Ok(table[..]);
  }

  // ----- _partmeshing: node compaction -----

  /** A part of the screen mesh: its nodes, its triangles (three entries per
      cell, renumbered), the sorted global ids it uses and the global-to-local map. */
  datatype SubMesh<P> = SubMesh(node: seq<P>, cell: seq<nat>, idx: seq<nat>, nidxmap: seq<nat>)

  /** `nidxmap = zeros(nn); nidxmap[idx] = arange(len(idx))`. */
  function NidxMap(idx: seq<nat>, nn: nat): (m: seq<nat>)
    ensures |m| == nn
  {
    seq(nn, v requires 0 <= v < nn => if v in idx then FirstIndex(idx, v) else 0)
  }

  /** Every entry of the flat triangle list is a tag2nid index. */
  predicate TagsIn(tags: seq<nat>, n: nat)
  {
    forall q :: 0 <= q < |tags| ==> tags[q] < n
  }

  predicate NodeIds(tag2nid: seq<nat>, nn: nat)
  {
    forall t :: 0 <= t < |tag2nid| ==> tag2nid[t] < nn
  }

  /** `tag2nid[cell]`: the node id of every entry of the flat triangle list. */
  function CellIds(cellTags: seq<nat>, tag2nid: seq<nat>): (cell: seq<nat>)
    requires TagsIn(cellTags, |tag2nid|)
    ensures |cell| == |cellTags|
  {
    seq(|cellTags|, q requires 0 <= q < |cellTags| => tag2nid[cellTags[q]])
  }

  /** The compaction of `_partmeshing` once the surfaces' triangles are joined
      into one flat tag list: mapped through tag2nid and renumbered onto the
      sorted node ids they use.  A list not made of triples fails the reshape,
      a tag outside tag2nid raises IndexError. */
  function CompactPart<P>(cellTags: seq<nat>, node: seq<P>, tag2nid: seq<nat>): (r: Result<SubMesh<P>>)
    requires NodeIds(tag2nid, |node|)
    ensures r.Ok? <==> |cellTags| % 3 == 0 && TagsIn(cellTags, |tag2nid|)
    ensures r.Err? ==> r.error == (if |cellTags| % 3 != 0 then ValueError else IndexError)
  {
    if |cellTags| % 3 != 0 then Err(ValueError)
    else if !TagsIn(cellTags, |tag2nid|) then Err(IndexError)
    else
      var cell := CellIds(cellTags, tag2nid);
      var idx := Unique(cell);
      UniqueBounded(cell, |node|);
      var nidxmap := NidxMap(idx, |node|);
      Ok(SubMesh(
        seq(|idx|, k requires 0 <= k < |idx| => node[idx[k]]),
        seq(|cell|, q requires 0 <= q < |cell| => nidxmap[cell[q]]),
        idx, nidxmap))
  }

  /** `_partmeshing`: one triangle tag list per surface of the part, joined by
      `np.concatenate`, which refuses a part without surfaces (ValueError), then
      compacted. */
  function PartMesh<P>(surfaces: seq<seq<nat>>, node: seq<P>, tag2nid: seq<nat>): (r: Result<SubMesh<P>>)
    requires NodeIds(tag2nid, |node|)
    ensures r.Ok? <==> |surfaces| > 0 && |Flatten(surfaces)| % 3 == 0 && TagsIn(Flatten(surfaces), |tag2nid|)
    ensures r.Err? ==> r.error == (if |surfaces| == 0 || |Flatten(surfaces)| % 3 != 0 then ValueError else IndexError)
    ensures r.Ok? ==> r == CompactPart(Flatten(surfaces), node, tag2nid)
  {
    if |surfaces| == 0 then Err(ValueError) else CompactPart(Flatten(surfaces), node, tag2nid)
  }

  /** nidxmap inverts idx: it sends idx[k] to k, and back. */
  lemma NidxMapInverse(idx: seq<nat>, nn: nat)
    requires StrictlyIncreasing(idx) && forall k :: 0 <= k < |idx| ==> idx[k] < nn
    ensures forall k :: 0 <= k < |idx| ==> NidxMap(idx, nn)[idx[k]] == k
    ensures forall v :: v in idx ==> v < nn && NidxMap(idx, nn)[v] < |idx| && idx[NidxMap(idx, nn)[v]] == v
  {
    forall k | 0 <= k < |idx| ensures NidxMap(idx, nn)[idx[k]] == k {
      assert idx[k] in idx;
      FirstIndexOfIncreasing(idx, k);
    }
  }

  /** The ids idx keeps are exactly the ids the cells use. */
  lemma CellIdsUsed(cellTags: seq<nat>, tag2nid: seq<nat>, v: nat)
    requires TagsIn(cellTags, |tag2nid|)
    ensures v in Unique(CellIds(cellTags, tag2nid)) <==> exists q :: 0 <= q < |cellTags| && tag2nid[cellTags[q]] == v
  {
    var cell := CellIds(cellTags, tag2nid);
    if v in cell {
      var q :| 0 <= q < |cell| && cell[q] == v;
      assert tag2nid[cellTags[q]] == v;
    }
    if exists q :: 0 <= q < |cellTags| && tag2nid[cellTags[q]] == v {
      var q :| 0 <= q < |cellTags| && tag2nid[cellTags[q]] == v;
      assert cell[q] == v;
    }
  }

  /** After compaction idx is the sorted set of node ids the cells use, nidxmap
      inverts it, every renumbered entry is a local node, and each triangle
      keeps its geometry: the local node of every entry is the global node it replaced. */
  lemma CompactPartRenumbers<P>(cellTags: seq<nat>, node: seq<P>, tag2nid: seq<nat>)
    requires NodeIds(tag2nid, |node|) && CompactPart(cellTags, node, tag2nid).Ok?
    ensures var sub := CompactPart(cellTags, node, tag2nid).value;
      StrictlyIncreasing(sub.idx) &&
      (forall v :: v in sub.idx <==> exists q :: 0 <= q < |cellTags| && tag2nid[cellTags[q]] == v) &&
      (forall k :: 0 <= k < |sub.idx| ==> sub.idx[k] < |node| && sub.nidxmap[sub.idx[k]] == k) &&
      |sub.cell| == |cellTags| && |sub.node| == |sub.idx| &&
      forall q :: 0 <= q < |cellTags| ==>
        sub.cell[q] < |sub.idx| && sub.idx[sub.cell[q]] == tag2nid[cellTags[q]] &&
        sub.node[sub.cell[q]] == node[tag2nid[cellTags[q]]]
  {
    var sub := CompactPart(cellTags, node, tag2nid).value;
    var cell := CellIds(cellTags, tag2nid);
    assert sub.idx == Unique(cell);
    UniqueIncreasing(cell);
    UniqueBounded(cell, |node|);
    NidxMapInverse(sub.idx, |node|);
    forall v ensures v in sub.idx <==> exists q :: 0 <= q < |cellTags| && tag2nid[cellTags[q]] == v {
      CellIdsUsed(cellTags, tag2nid, v);
    }
    forall q | 0 <= q < |cellTags|
      ensures sub.cell[q] < |sub.idx| && sub.idx[sub.cell[q]] == tag2nid[cellTags[q]]
    {
      assert cell[q] in cell;
    }
  }

  /** The array writes of `_partmeshing`: `nidxmap[idx] = np.arange(len(idx))`,
      then `cell = nidxmap[cell]`. */
  method PartMeshing<P>(surfaces: seq<seq<nat>>, node: seq<P>, tag2nid: seq<nat>) returns (r: Result<SubMesh<P>>)
    requires NodeIds(tag2nid, |node|)
    ensures r == PartMesh(surfaces, node, tag2nid)
  {
    if |surfaces| == 0 {
      return Err(ValueError);
    }
    var cellTags := Flatten(surfaces);
    if |cellTags| % 3 != 0 {
      return Err(ValueError);
    }
    if !TagsIn(cellTags, |tag2nid|) {
      return Err(IndexError);
    }
    var cell := CellIds(cellTags, tag2nid);
    var idx := Unique(cell);
    UniqueIncreasing(cell);
    UniqueBounded(cell, |node|);
    var nidxmap := BuildNidxMap(idx, |node|);
    var newcell := Renumber(cell, nidxmap);
    r := Ok(SubMesh(seq(|idx|, k requires 0 <= k < |idx| => node[idx[k]]), newcell, idx, nidxmap));
  }

  /** `nidxmap = zeros(nn); nidxmap[idx] = np.arange(len(idx))`, written entry by entry. */
  method BuildNidxMap(idx: seq<nat>, nn: nat) returns (m: seq<nat>)
    requires StrictlyIncreasing(idx) && forall k :: 0 <= k < |idx| ==> idx[k] < nn
    ensures m == NidxMap(idx, nn)
  {
    var nidxmap := new nat[nn](_ => 0);
    for k := 0 to |idx|
      invariant forall v :: 0 <= v < nn ==> nidxmap[v] == if v in idx[..k] then FirstIndex(idx, v) else 0
    {
      FirstIndexOfIncreasing(idx, k);
      forall v | 0 <= v < nn ensures v in idx[..k + 1] <==> v in idx[..k] || v == idx[k] {
        assert idx[..k + 1] == idx[..k] + [idx[k]];
      }
      nidxmap[idx[k]] := k;
    }
    assert idx[..|idx|] == idx;
    m := nidxmap[..];
    assert m == NidxMap(idx, nn);
  }

  /** `cell = nidxmap[cell]`. */
  method Renumber(cell: seq<nat>, nidxmap: seq<nat>) returns (newcell: seq<nat>)
    requires forall q :: 0 <= q < |cell| ==> cell[q] < |nidxmap|
    ensures newcell == seq(|cell|, q requires 0 <= q < |cell| => nidxmap[cell[q]])
  {
    var a := new nat[|cell|];
    for q := 0 to |cell|
      invariant forall j :: 0 <= j < q ==> a[j] == nidxmap[cell[j]]
    {
      a[q] := nidxmap[cell[q]];
    }
    newcell := a[..];
  }

  // ----- _get_didx_dval -----

  /** The Dirichlet data of an ellipsoid part under one camera. */
  datatype Dirichlet<V> = Dirichlet(didx: seq<nat>, dval: seq<V>)

  /** `_get_didx_dval`: the node tags on the boundary edges of the part's surfaces
      (one list per edge), mapped through tag2nid and nidxmap, with the value
      `f0(cam, tag)` the camera's projection gives each of them, de-duplicated.
      A camera outside the system or an index outside a map raises IndexError;
      no boundary edge at all leaves nothing to concatenate, a ValueError. */
  function DidxDval<V>(boundary: seq<seq<nat>>, cam: nat, ncam: nat, f0: (nat, nat) -> V,
    tag2nid: seq<nat>, nidxmap: seq<nat>): (r: Result<Dirichlet<V>>)
  {
    if cam >= ncam then Err(IndexError)
    else
      var tags := Flatten<nat>(boundary);
      if !TagsIn(tags, |tag2nid|) then Err(IndexError)
      else if |boundary| == 0 then Err(ValueError)
      else if exists q :: 0 <= q < |tags| && tag2nid[tags[q]] >= |nidxmap| then Err(IndexError)
      else
        var (u, v) := Dedup(DirichletIds(tags, tag2nid, nidxmap), DirichletValues(tags, cam, f0));
        Ok(Dirichlet(u, v))
  }

  /** The renumbered node of every boundary tag, before de-duplication. */
  function DirichletIds(tags: seq<nat>, tag2nid: seq<nat>, nidxmap: seq<nat>): (didx: seq<nat>)
    requires TagsIn(tags, |tag2nid|) && forall q :: 0 <= q < |tags| ==> tag2nid[tags[q]] < |nidxmap|
    ensures |didx| == |tags|
  {
    seq(|tags|, q requires 0 <= q < |tags| => nidxmap[tag2nid[tags[q]]])
  }

  /** The camera's value at every boundary tag, before de-duplication. */
  function DirichletValues<V>(tags: seq<nat>, cam: nat, f0: (nat, nat) -> V): (dval: seq<V>)
    ensures |dval| == |tags|
  {
    seq(|tags|, q requires 0 <= q < |tags| => f0(cam, tags[q]))
  }

  /** `_get_didx_dval` succeeds exactly when the camera exists, the part has a
      boundary and every tag goes through both maps; then didx is the sorted set
      of renumbered boundary nodes, and each carries the value of its first
      occurrence in the concatenated edge lists. */
  lemma DidxDvalSpec<V>(boundary: seq<seq<nat>>, cam: nat, ncam: nat, f0: (nat, nat) -> V,
    tag2nid: seq<nat>, nidxmap: seq<nat>)
    ensures var tags := Flatten<nat>(boundary);
      DidxDval(boundary, cam, ncam, f0, tag2nid, nidxmap).Ok? <==>
        cam < ncam && |boundary| > 0 && TagsIn(tags, |tag2nid|) &&
        forall q :: 0 <= q < |tags| ==> tag2nid[tags[q]] < |nidxmap|
    ensures var r, tags := DidxDval(boundary, cam, ncam, f0, tag2nid, nidxmap), Flatten<nat>(boundary);
      r.Ok? && TagsIn(tags, |tag2nid|) && (forall q :: 0 <= q < |tags| ==> tag2nid[tags[q]] < |nidxmap|) ==>
        StrictlyIncreasing(r.value.didx) && |r.value.dval| == |r.value.didx| &&
        (forall y :: y in r.value.didx <==> exists q :: 0 <= q < |tags| && nidxmap[tag2nid[tags[q]]] == y) &&
        forall k, q :: (0 <= k < |r.value.didx| && 0 <= q < |tags| && nidxmap[tag2nid[tags[q]]] == r.value.didx[k] &&
          (forall i :: 0 <= i < q ==> nidxmap[tag2nid[tags[i]]] != r.value.didx[k])) ==> r.value.dval[k] == f0(cam, tags[q])
  {
    var tags := Flatten<nat>(boundary);
    if cam < ncam && |boundary| > 0 && TagsIn(tags, |tag2nid|) && forall q :: 0 <= q < |tags| ==> tag2nid[tags[q]] < |nidxmap| {
      var ids, vals := DirichletIds(tags, tag2nid, nidxmap), DirichletValues(tags, cam, f0);
      DedupFirstOccurrence(ids, vals);
      assert forall q :: 0 <= q < |tags| ==> ids[q] == nidxmap[tag2nid[tags[q]]] && vals[q] == f0(cam, tags[q]);
      forall y | y in ids
        ensures exists q :: 0 <= q < |tags| && nidxmap[tag2nid[tags[q]]] == y
      {
        var q :| 0 <= q < |ids| && ids[q] == y;
      }
    }
  }

  // ----- meshing: classification of the parts -----

  /** A part as `partition` describes it: the triangles of each of its surfaces
      (flat node tags, one list per surface), its cameras and the node tags of
      its boundary edges. */
  datatype Region = Region(surfaces: seq<seq<nat>>, cams: seq<nat>, boundary: seq<seq<nat>>)

  /** The records `meshing` keeps: a part seen by two cameras, or by one. */
  datatype Part<P, V> =
    | OverlapPart(cam0: nat, cam1: nat, mesh: SubMesh<P>, bc: seq<Dirichlet<V>>)
    | NonOverlapPart(cam: nat, mesh: SubMesh<P>, bc: seq<Dirichlet<V>>)

  /** One step of a `meshing` loop: two cameras make an overlap record, any other
      number a non-overlap record for the first camera (none raises IndexError);
      ellipsoid parts carry the Dirichlet data of each of their cameras. */
  function RegionPart<P, V>(reg: Region, node: seq<P>, tag2nid: seq<nat>, ellipsoid: bool,
    ncam: nat, f0: (nat, nat) -> V): (r: Result<Part<P, V>>)
    requires NodeIds(tag2nid, |node|)
  {
    if |reg.cams| == 2 then
      match PartMesh(reg.surfaces, node, tag2nid)
      case Err(e) => Err(e)
      case Ok(sub) =>
        if !ellipsoid then Ok(OverlapPart(reg.cams[0], reg.cams[1], sub, []))
        else
          match DidxDval(reg.boundary, reg.cams[0], ncam, f0, tag2nid, sub.nidxmap)
          case Err(e) => Err(e)
          case Ok(d0) =>
            match DidxDval(reg.boundary, reg.cams[1], ncam, f0, tag2nid, sub.nidxmap)
            case Err(e) => Err(e)
            case Ok(d1) => Ok(OverlapPart(reg.cams[0], reg.cams[1], sub, [d0, d1]))
    else if |reg.cams| == 0 then Err(IndexError)
    else
      match PartMesh(reg.surfaces, node, tag2nid)
      case Err(e) => Err(e)
      case Ok(sub) =>
        if !ellipsoid then Ok(NonOverlapPart(reg.cams[0], sub, []))
        else
          match DidxDval(reg.boundary, reg.cams[0], ncam, f0, tag2nid, sub.nidxmap)
          case Err(e) => Err(e)
          case Ok(d) => Ok(NonOverlapPart(reg.cams[0], sub, [d]))
  }

  /** Two cameras give an overlap record for them, one or more than two a
      non-overlap record for the first, none an IndexError; a part without
      surfaces that has a camera fails the join with ValueError; the record holds the
      compacted part and, on the ellipsoid, one set of Dirichlet data per camera used. */
  lemma RegionPartShape<P, V>(reg: Region, node: seq<P>, tag2nid: seq<nat>, ellipsoid: bool,
    ncam: nat, f0: (nat, nat) -> V)
    requires NodeIds(tag2nid, |node|)
    ensures var r := RegionPart(reg, node, tag2nid, ellipsoid, ncam, f0);
      (|reg.cams| == 0 ==> r == Err(IndexError)) &&
      (|reg.cams| > 0 && |reg.surfaces| == 0 ==> r == Err(ValueError)) &&
      (r.Ok? ==> (r.value.OverlapPart? <==> |reg.cams| == 2)) &&
      (r.Ok? && |reg.cams| == 2 ==> r.value.cam0 == reg.cams[0] && r.value.cam1 == reg.cams[1]) &&
      (r.Ok? && |reg.cams| != 2 ==> |reg.cams| > 0 && r.value.cam == reg.cams[0]) &&
      (r.Ok? ==> PartMesh(reg.surfaces, node, tag2nid).Ok? && r.value.mesh == PartMesh(reg.surfaces, node, tag2nid).value) &&
      (r.Ok? ==> |r.value.bc| == if !ellipsoid then 0 else if |reg.cams| == 2 then 2 else 1)
  {
  }

  /** The record (or the error) of every region, in order. */
  function RegionParts<P, V>(regions: seq<Region>, node: seq<P>, tag2nid: seq<nat>, ellipsoid: bool,
    ncam: nat, f0: (nat, nat) -> V): (parts: seq<Result<Part<P, V>>>)
    requires NodeIds(tag2nid, |node|)
    ensures |parts| == |regions|
  {
    seq(|regions|, k requires 0 <= k < |regions| => RegionPart(regions[k], node, tag2nid, ellipsoid, ncam, f0))
  }

  /** The records one loop of `meshing` appends, (overlap, non-overlap), from the
      regions' records in order; the first failing region decides the error. */
  function Classify<P, V>(parts: seq<Result<Part<P, V>>>): (r: Result<(seq<Part<P, V>>, seq<Part<P, V>>)>)
    ensures r.Ok? ==> forall k :: 0 <= k < |r.value.0| ==> r.value.0[k].OverlapPart?
    ensures r.Ok? ==> forall k :: 0 <= k < |r.value.1| ==> r.value.1[k].NonOverlapPart?
    ensures r.Ok? ==> |r.value.0| + |r.value.1| == |parts|
    ensures r.Ok? <==> forall k :: 0 <= k < |parts| ==> parts[k].Ok?
  {
    if |parts| == 0 then Ok(([], []))
    else
      var n := |parts| - 1;
      match Classify(parts[..n])
      case Err(e) => Err(e)
      case Ok(lists) =>
        match parts[n]
        case Err(e) => Err(e)
        case Ok(part) =>
          if part.OverlapPart? then Ok((lists.0 + [part], lists.1)) else Ok((lists.0, lists.1 + [part]))
  }

  /** Once a prefix fails, the whole walk fails the same way. */
  lemma {:induction false} ClassifyErrorStays<P, V>(parts: seq<Result<Part<P, V>>>, i: nat)
    requires i <= |parts| && Classify(parts[..i]).Err?
    ensures Classify(parts) == Classify(parts[..i])
  {
    if i < |parts| {
      var n := |parts| - 1;
      assert parts[..n][..i] == parts[..i];
      ClassifyErrorStays(parts[..n], i);
    } else {
      assert parts[..i] == parts;
    }
  }

  /** A walk that succeeds puts every overlap record in its first list and every
      other record in its second. */
  lemma {:induction false} ClassifyByKind<P, V>(parts: seq<Result<Part<P, V>>>)
    requires Classify(parts).Ok?
    ensures var c := Classify(parts).value;
      forall k :: 0 <= k < |parts| ==>
        (parts[k].value.OverlapPart? ==> parts[k].value in c.0) && (parts[k].value.NonOverlapPart? ==> parts[k].value in c.1)
  {
    if |parts| > 0 {
      var n := |parts| - 1;
      ClassifyByKind(parts[..n]);
      assert forall k :: 0 <= k < n ==> parts[..n][k] == parts[k];
    }
  }

  /** The records of the whole `meshing` call: the ground parts, then the ellipsoid parts. */
  datatype Lists<P, V> = Lists(groundOverlap: seq<Part<P, V>>, groundNonOverlap: seq<Part<P, V>>,
    ellipsoidOverlap: seq<Part<P, V>>, ellipsoidNonOverlap: seq<Part<P, V>>)

  function MeshingRecords<P, V>(node: seq<P>, nid2tag: seq<nat>, ground: seq<Region>, ellipsoid: seq<Region>,
    ncam: nat, f0: (nat, nat) -> V): Result<Lists<P, V>>
    requires |node| == |nid2tag|
  {
    match Tag2Nid(nid2tag)
    case Err(e) => Err(e)
    case Ok(tag2nid) =>
      Tag2NidRange(nid2tag);
      match Classify(RegionParts(ground, node, tag2nid, false, ncam, f0))
      case Err(e) => Err(e)
      case Ok(g) =>
        match Classify(RegionParts(ellipsoid, node, tag2nid, true, ncam, f0))
        case Err(e) => Err(e)
        case Ok(el) => Ok(Lists(g.0, g.1, el.0, el.1))
  }

  /** The screen's lists of part meshes, which `meshing` appends to. */
  class Screen<P, V> {
    var groundOverlapMesh: seq<Part<P, V>>
    var groundNonOverlapMesh: seq<Part<P, V>>
    var eillposidOverlapMesh: seq<Part<P, V>>
    var eillposidNonOverlapMesh: seq<Part<P, V>>

    /** The four lists start empty. */
    constructor ()
      ensures groundOverlapMesh == [] && groundNonOverlapMesh == []
      ensures eillposidOverlapMesh == [] && eillposidNonOverlapMesh == []
    {
      groundOverlapMesh, groundNonOverlapMesh := [], [];
      eillposidOverlapMesh, eillposidNonOverlapMesh := [], [];
    }

    /** `meshing`: build tag2nid, then walk the ground parts and the ellipsoid
        parts, appending each record to the list its camera count selects.
        On success each list has gained exactly the records of its kind, in
        order; an error is the first one the walk meets. */
    method Meshing(node: seq<P>, nid2tag: seq<nat>, ground: seq<Region>, ellipsoid: seq<Region>,
      ncam: nat, f0: (nat, nat) -> V) returns (err: Option<Exception>)
      requires |node| == |nid2tag|
      modifies this
      ensures var spec := MeshingRecords(node, nid2tag, ground, ellipsoid, ncam, f0);
        (err.None? <==> spec.Ok?) && (err.Some? ==> err.value == spec.error)
      ensures err.None? ==> var lists := MeshingRecords(node, nid2tag, ground, ellipsoid, ncam, f0).value;
        groundOverlapMesh == old(groundOverlapMesh) + lists.groundOverlap &&
        groundNonOverlapMesh == old(groundNonOverlapMesh) + lists.groundNonOverlap &&
        eillposidOverlapMesh == old(eillposidOverlapMesh) + lists.ellipsoidOverlap &&
        eillposidNonOverlapMesh == old(eillposidNonOverlapMesh) + lists.ellipsoidNonOverlap
    {
      var t := BuildTag2Nid(nid2tag);
      if t.Err? {
        return Some(t.error);
      }
      var tag2nid := t.value;
      Tag2NidRange(nid2tag);
      err := AppendParts(ground, node, tag2nid, false, ncam, f0);
      if err.Some? {
        return;
      }
      err := AppendParts(ellipsoid, node, tag2nid, true, ncam, f0);
    }

    /** One loop of `meshing`: each region's record goes to the overlap or the
        non-overlap list of the ground (or of the ellipsoid); the other two
        lists are not touched. */
    method AppendParts(regions: seq<Region>, node: seq<P>, tag2nid: seq<nat>, ellipsoid: bool,
      ncam: nat, f0: (nat, nat) -> V) returns (err: Option<Exception>)
      requires NodeIds(tag2nid, |node|)
      modifies this
      ensures var spec := Classify(RegionParts(regions, node, tag2nid, ellipsoid, ncam, f0));
        (err.None? <==> spec.Ok?) && (err.Some? ==> err.value == spec.error)
      ensures !ellipsoid ==> eillposidOverlapMesh == old(eillposidOverlapMesh) && eillposidNonOverlapMesh == old(eillposidNonOverlapMesh)
      ensures ellipsoid ==> groundOverlapMesh == old(groundOverlapMesh) && groundNonOverlapMesh == old(groundNonOverlapMesh)
      ensures err.None? && !ellipsoid ==> var c := Classify(RegionParts(regions, node, tag2nid, ellipsoid, ncam, f0)).value;
        groundOverlapMesh == old(groundOverlapMesh) + c.0 && groundNonOverlapMesh == old(groundNonOverlapMesh) + c.1
      ensures err.None? && ellipsoid ==> var c := Classify(RegionParts(regions, node, tag2nid, ellipsoid, ncam, f0)).value;
        eillposidOverlapMesh == old(eillposidOverlapMesh) + c.0 && eillposidNonOverlapMesh == old(eillposidNonOverlapMesh) + c.1
    {
      var overlap := if ellipsoid then eillposidOverlapMesh else groundOverlapMesh;
      var nonOverlap := if ellipsoid then eillposidNonOverlapMesh else groundNonOverlapMesh;
      var parts := RegionParts(regions, node, tag2nid, ellipsoid, ncam, f0);
      err, overlap, nonOverlap := WalkParts(parts, overlap, nonOverlap);
      if ellipsoid {
        eillposidOverlapMesh, eillposidNonOverlapMesh := overlap, nonOverlap;
      } else {
        groundOverlapMesh, groundNonOverlapMesh := overlap, nonOverlap;
      }
    }
  }

  /** The walk of one `meshing` loop: append each record to its list, stop at the first error. */
  method WalkParts<P, V>(parts: seq<Result<Part<P, V>>>, overlap0: seq<Part<P, V>>, nonOverlap0: seq<Part<P, V>>)
    returns (err: Option<Exception>, overlap: seq<Part<P, V>>, nonOverlap: seq<Part<P, V>>)
    ensures var spec := Classify(parts);
      (err.None? <==> spec.Ok?) && (err.Some? ==> err.value == spec.error) &&
      (err.None? ==> overlap == overlap0 + spec.value.0 && nonOverlap == nonOverlap0 + spec.value.1)
  {
    overlap, nonOverlap := overlap0, nonOverlap0;
    for i := 0 to |parts|
      invariant Classify(parts[..i]).Ok?
      invariant overlap == overlap0 + Classify(parts[..i]).value.0 && nonOverlap == nonOverlap0 + Classify(parts[..i]).value.1
    {
      assert parts[..i + 1][..i] == parts[..i];
      if parts[i].Err? {
        ClassifyErrorStays(parts, i + 1);
        return Some(parts[i].error), overlap, nonOverlap;
      }
      if parts[i].value.OverlapPart? {
        overlap := overlap + [parts[i].value];
      } else {
        nonOverlap := nonOverlap + [parts[i].value];
      }
    }
    assert parts[..|parts|] == parts;
    err := None;
  }

  // ----- ground_mark_board: ring pairing -----

  /** A camera's ground feature points: `ground_feature_points[0]` and `[1]`. */
  datatype Camera<P> = Camera(features0: seq<P>, features1: seq<P>)

  /** A mark shared by camera cam0 and its right neighbour cam1. */
  datatype GroundMarkPoint<P> = GroundMarkPoint(cam0: nat, cam1: nat, p0: P, p1: P, p2: P)

  /** The right neighbour of camera i in the ring of six. */
  function RightNeighbour(i: nat): nat
  {
    (i + 1) % 6
  }

  /** The marks between camera i and its right neighbour: the second feature list of i
      against the first of the neighbour.  `mid(i, ri, j)` is the mean of their screen
      images, an input.  A missing camera raises IndexError; the in-place `+=` needs
      the neighbour's images to broadcast to camera i's (ValueError otherwise); and
      the neighbour's list must be as long as camera i's (IndexError otherwise).  So
      the pair succeeds exactly when the two lists are equally long, or camera i has
      no points and the neighbour one. */
  function MarkRow<P>(cams: seq<Camera<P>>, i: nat, mid: (nat, nat, nat) -> P): (r: Result<seq<GroundMarkPoint<P>>>)
    requires i < 6
    ensures r.Ok? <==> (i < |cams| && RightNeighbour(i) < |cams| &&
      (|cams[RightNeighbour(i)].features0| == |cams[i].features1| ||
       (|cams[i].features1| == 0 && |cams[RightNeighbour(i)].features0| == 1)))
    ensures r.Err? ==> (r.error == ValueError <==>
      i < |cams| && RightNeighbour(i) < |cams| &&
      |cams[RightNeighbour(i)].features0| != |cams[i].features1| && |cams[RightNeighbour(i)].features0| != 1)
    ensures r.Err? ==> r.error == ValueError || r.error == IndexError
    ensures r.Ok? ==> |r.value| == |cams[i].features1|
    ensures r.Ok? ==> forall j :: 0 <= j < |r.value| ==>
      (r.value[j].cam0 == i && r.value[j].cam1 == RightNeighbour(i) &&
       r.value[j].p0 == cams[i].features1[j] && r.value[j].p1 == cams[RightNeighbour(i)].features0[j])
  {
    var ri := RightNeighbour(i);
    if i >= |cams| || ri >= |cams| then Err(IndexError)
    else
      var ps0, ps1 := cams[i].features1, cams[ri].features0;
      if !(|ps1| == |ps0| || |ps1| == 1) then Err(ValueError)
      else if |ps1| < |ps0| then Err(IndexError)
      else Ok(seq(|ps0|, j requires 0 <= j < |ps0| => GroundMarkPoint(i, ri, ps0[j], ps1[j], mid(i, ri, j))))
  }

  /** The marks of cameras 0..n-1, in order; the first failing camera decides the
      error, so the board is built exactly when every pair succeeds. */
  function MarkBoard<P>(cams: seq<Camera<P>>, n: nat, mid: (nat, nat, nat) -> P): (r: Result<seq<GroundMarkPoint<P>>>)
    requires n <= 6
    ensures r.Ok? <==> forall i :: 0 <= i < n ==> MarkRow(cams, i, mid).Ok?
  {
    if n == 0 then Ok([])
    else
      match MarkBoard(cams, n - 1, mid)
      case Err(e) => Err(e)
      case Ok(gmp) =>
        match MarkRow(cams, n - 1, mid)
        case Err(e) => Err(e)
        case Ok(row) => Ok(gmp + row)
  }

  /** Every mark pairs a camera with its right neighbour, and its two points are the
      same feature index in the two cameras' lists. */
  lemma {:induction false} MarkBoardPairs<P>(cams: seq<Camera<P>>, n: nat, mid: (nat, nat, nat) -> P)
    requires n <= 6 && MarkBoard(cams, n, mid).Ok?
    ensures var gmp := MarkBoard(cams, n, mid).value;
      forall k :: 0 <= k < |gmp| ==> (gmp[k].cam0 < n && gmp[k].cam1 == RightNeighbour(gmp[k].cam0) &&
        gmp[k].cam0 < |cams| && gmp[k].cam1 < |cams| &&
        exists j :: 0 <= j < |cams[gmp[k].cam0].features1| && j < |cams[gmp[k].cam1].features0| &&
          gmp[k].p0 == cams[gmp[k].cam0].features1[j] && gmp[k].p1 == cams[gmp[k].cam1].features0[j])
  {
    if n > 0 {
      MarkBoardPairs(cams, n - 1, mid);
      var gmp := MarkBoard(cams, n - 1, mid).value;
      var row := MarkRow(cams, n - 1, mid).value;
      var all := gmp + row;
      forall k | |gmp| <= k < |all|
        ensures all[k].cam0 < n && all[k].cam1 == RightNeighbour(all[k].cam0) &&
          all[k].cam0 < |cams| && all[k].cam1 < |cams| &&
          exists j :: 0 <= j < |cams[all[k].cam0].features1| && j < |cams[all[k].cam1].features0| &&
            all[k].p0 == cams[all[k].cam0].features1[j] && all[k].p1 == cams[all[k].cam1].features0[j]
      {
        var j := k - |gmp|;
        assert all[k] == row[j];
      }
    }
  }

  /** Each camera contributes one mark per point of its second feature list. */
  lemma {:induction false} MarkBoardCount<P>(cams: seq<Camera<P>>, n: nat, mid: (nat, nat, nat) -> P)
    requires n <= 6 && n <= |cams| && MarkBoard(cams, n, mid).Ok?
    ensures |MarkBoard(cams, n, mid).value| == FeatureCount(cams, n)
  {
    if n > 0 {
      MarkBoardCount(cams, n - 1, mid);
    }
  }

  /** The number of points in the second feature lists of cameras 0..n-1. */
  function FeatureCount<P>(cams: seq<Camera<P>>, n: nat): nat
    requires n <= |cams|
  {
    if n == 0 then 0 else FeatureCount(cams, n - 1) + |cams[n - 1].features1|
  }

  /** `ground_mark_board`: the loop over the six cameras of the ring, appending one
      mark per feature point; the first failing pair ends it with its error, and a
      ring of fewer than six cameras always fails. */
  method GroundMarkBoard<P>(cams: seq<Camera<P>>, mid: (nat, nat, nat) -> P) returns (r: Result<seq<GroundMarkPoint<P>>>)
    ensures r == MarkBoard(cams, 6, mid)
    ensures |cams| < 6 ==> r.Err?
  {
    MarkBoardNeedsSixCameras(cams, mid);
    var gmp: seq<GroundMarkPoint<P>> := [];
    for i := 0 to 6
      invariant MarkBoard(cams, i, mid) == Ok(gmp)
    {
      var ri := (i + 1) % 6;
      if i >= |cams| || ri >= |cams| {
        MarkBoardStops(cams, i + 1, mid);
        return Err(IndexError);
      }
      var ps0, ps1 := cams[i].features1, cams[ri].features0;
      if !(|ps1| == |ps0| || |ps1| == 1) {
        MarkBoardStops(cams, i + 1, mid);
        return Err(ValueError);
      }
      if |ps1| < |ps0| {
        MarkBoardStops(cams, i + 1, mid);
        return Err(IndexError);
      }
      ghost var start := gmp;
      for j := 0 to |ps0|
        invariant gmp == start + MarkRow(cams, i, mid).value[..j]
      {
        gmp := gmp + [GroundMarkPoint(i, ri, ps0[j], ps1[j], mid(i, ri, j))];
        assert MarkRow(cams, i, mid).value[..j + 1] == MarkRow(cams, i, mid).value[..j] + [MarkRow(cams, i, mid).value[j]];
      }
      assert MarkRow(cams, i, mid).value[..|ps0|] == MarkRow(cams, i, mid).value;
    }
    r := Ok(gmp);
  }

  /** A failing camera makes every later board fail with its error. */
  lemma {:induction false} MarkBoardStops<P>(cams: seq<Camera<P>>, i: nat, mid: (nat, nat, nat) -> P)
    requires 0 < i <= 6 && MarkBoard(cams, i, mid).Err?
    ensures MarkBoard(cams, 6, mid) == MarkBoard(cams, i, mid)
    decreases 6 - i
  {
    if i < 6 {
      MarkBoardStops(cams, i + 1, mid);
    }
  }

  /** The board fails with the error of the first failing pair. */
  lemma MarkBoardFirstError<P>(cams: seq<Camera<P>>, k: nat, mid: (nat, nat, nat) -> P)
    requires k < 6 && MarkRow(cams, k, mid).Err?
    requires forall i :: 0 <= i < k ==> MarkRow(cams, i, mid).Ok?
    ensures MarkBoard(cams, 6, mid) == Err(MarkRow(cams, k, mid).error)
  {
    assert MarkBoard(cams, k, mid).Ok?;
    MarkBoardStops(cams, k + 1, mid);
  }

  /** With fewer than six cameras the ring cannot close: the board fails, and it
      fails with IndexError when every pair of cameras that exist succeeds. */
  lemma MarkBoardNeedsSixCameras<P>(cams: seq<Camera<P>>, mid: (nat, nat, nat) -> P)
    ensures |cams| < 6 ==> MarkBoard(cams, 6, mid).Err?
    ensures |cams| < 6 && (forall i :: 0 <= i < |cams| - 1 ==> MarkRow(cams, i, mid).Ok?) ==>
      MarkBoard(cams, 6, mid) == Err(IndexError)
  {
    if |cams| < 6 {
      var k := if |cams| == 0 then 0 else |cams| - 1;
      assert MarkRow(cams, k, mid).Err? && MarkRow(cams, k, mid).error == IndexError;
      if forall i :: 0 <= i < k ==> MarkRow(cams, i, mid).Ok? {
        MarkBoardFirstError(cams, k, mid);
      }
    }
  }
}
