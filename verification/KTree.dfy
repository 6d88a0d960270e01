/**
  B-trees as values: what a tree of nodes stands for, what makes it a B-tree of minimum degree t, and
  the rearrangements the insert and delete routines of ktree.h perform on a node and its children.
  Each value node names the memory node (at) it describes; a leaf has no kids.
 */
module KTree {

  datatype Tree<N> = Node(at: N, keys: seq<int>, kids: seq<Tree<N>>)

  // ----- in-order contents -----

  ghost function Elems<N>(t: Tree<N>): seq<int>
    decreases t, 1
  {
    if t.kids == [] then t.keys else Elems(t.kids[0]) + Post(t.keys, t.kids[1..])
  }

  /** Each key followed by the contents of the subtree to its right. */
  ghost function Post<N>(keys: seq<int>, kids: seq<Tree<N>>): seq<int>
    decreases kids, 0
  {
    if keys == [] || kids == [] then [] else [keys[0]] + Elems(kids[0]) + Post(keys[1..], kids[1..])
  }

  /** What precedes child i: each subtree followed by the key to its right. */
  ghost function Pre<N>(keys: seq<int>, kids: seq<Tree<N>>): seq<int>
    decreases kids, 0
  {
    if keys == [] || kids == [] then [] else Elems(kids[0]) + [keys[0]] + Pre(keys[1..], kids[1..])
  }

  lemma AppendTwo(a: seq<int>, b: seq<int>, c: seq<int>)
    ensures a + (b + c) == a + b + c
  {
  }

  lemma {:induction false} PostConcat<N>(k1: seq<int>, c1: seq<Tree<N>>, k2: seq<int>, c2: seq<Tree<N>>)
    requires |k1| == |c1|
    ensures Post(k1 + k2, c1 + c2) == Post(k1, c1) + Post(k2, c2)
    decreases |k1|
  {
    hide Elems, Post;
    if k1 == [] {
      PostEmpty(k1, c1);
      assert k1 + k2 == k2 && c1 + c2 == c2;
    } else {
      PostUnfold(k1, c1);
      PostUnfold(k1 + k2, c1 + c2);
      PostConcat(k1[1..], c1[1..], k2, c2);
      assert (k1 + k2)[1..] == k1[1..] + k2 && (c1 + c2)[1..] == c1[1..] + c2;
      AppendTwo([k1[0]] + Elems(c1[0]), Post(k1[1..], c1[1..]), Post(k2, c2));
    }
  }

  lemma {:induction false} PreConcat<N>(k1: seq<int>, c1: seq<Tree<N>>, k2: seq<int>, c2: seq<Tree<N>>)
    requires |k1| == |c1|
    ensures Pre(k1 + k2, c1 + c2) == Pre(k1, c1) + Pre(k2, c2)
    decreases |k1|
  {
    hide Elems, Pre;
    if k1 == [] {
      PreEmpty(k1, c1);
      assert k1 + k2 == k2 && c1 + c2 == c2;
    } else {
      PreUnfold(k1, c1);
      PreUnfold(k1 + k2, c1 + c2);
      PreConcat(k1[1..], c1[1..], k2, c2);
      assert (k1 + k2)[1..] == k1[1..] + k2 && (c1 + c2)[1..] == c1[1..] + c2;
      AppendTwo(Elems(c1[0]) + [k1[0]], Pre(k1[1..], c1[1..]), Pre(k2, c2));
    }
  }

  /** Reading the contents child first or key first is the same. */
  lemma {:induction false} PrePost<N>(first: Tree<N>, keys: seq<int>, kids: seq<Tree<N>>)
    requires |keys| == |kids|
    ensures Elems(first) + Post(keys, kids)
         == Pre(keys, ([first] + kids)[..|keys|]) + Elems(([first] + kids)[|keys|])
    decreases |keys|
  {
    var all, n := [first] + kids, |keys|;
    if keys == [] {
      assert all[..n] == [];
    } else {
      PrePost(kids[0], keys[1..], kids[1..]);
      assert [kids[0]] + kids[1..] == kids;
      assert all[..n][1..] == kids[..n - 1];
      PreUnfold(keys, all[..n]);
      var e, k0, e0, post := Elems(first), [keys[0]], Elems(kids[0]), Post(keys[1..], kids[1..]);
      var pre, last := Pre(keys[1..], kids[..n - 1]), Elems(kids[n - 1]);
      assert e0 + post == pre + last;
      calc {
        e + (k0 + e0 + post);
        e + k0 + (e0 + post);
        e + k0 + pre + last;
      }
    }
  }

  lemma PreUnfold<N>(keys: seq<int>, kids: seq<Tree<N>>)
    requires keys != [] && kids != []
    ensures Pre(keys, kids) == Elems(kids[0]) + [keys[0]] + Pre(keys[1..], kids[1..])
  {
  }

  lemma PostUnfold<N>(keys: seq<int>, kids: seq<Tree<N>>)
    requires keys != [] && kids != []
    ensures Post(keys, kids) == [keys[0]] + Elems(kids[0]) + Post(keys[1..], kids[1..])
  {
  }

  /** The contents around child i. */
  lemma Focus<N>(t: Tree<N>, i: nat)
    requires |t.kids| == |t.keys| + 1 && i < |t.kids|
    ensures Elems(t) == Pre(t.keys[..i], t.kids[..i]) + Elems(t.kids[i]) + Post(t.keys[i..], t.kids[i + 1..])
  {
    hide Pre, Post;
    var rest := t.kids[1..];
    assert t.keys == t.keys[..i] + t.keys[i..] && rest == rest[..i] + rest[i..];
    PostConcat(t.keys[..i], rest[..i], t.keys[i..], rest[i..]);
    PrePost(t.kids[0], t.keys[..i], rest[..i]);
    assert rest[i..] == t.kids[i + 1..];
    assert [t.kids[0]] + rest[..i] == t.kids[..i + 1];
    assert t.kids[..i + 1][..i] == t.kids[..i];
  }

  /** The key just left of a child ends what precedes it. */
  lemma PreSnoc<N>(keys: seq<int>, kids: seq<Tree<N>>, k: int, c: Tree<N>)
    requires |keys| == |kids|
    ensures Pre(keys + [k], kids + [c]) == Pre(keys, kids) + Elems(c) + [k]
  {
    hide Pre, Elems;
    PreConcat(keys, kids, [k], [c]);
    PreOne([k], [c]);
    assert Pre(keys, kids) + (Elems(c) + [k]) == Pre(keys, kids) + Elems(c) + [k];
  }

  lemma PreOne<N>(keys: seq<int>, kids: seq<Tree<N>>)
    requires |keys| == |kids| == 1
    ensures Pre(keys, kids) == Elems(kids[0]) + keys
  {
    hide Elems;
    PreUnfold(keys, kids);
    PreEmpty(keys[1..], kids[1..]);
  }

  lemma PostEmpty<N>(keys: seq<int>, kids: seq<Tree<N>>)
    requires keys == []
    ensures Post(keys, kids) == []
  {
  }

  lemma PreEmpty<N>(keys: seq<int>, kids: seq<Tree<N>>)
    requires keys == []
    ensures Pre(keys, kids) == []
  {
  }

  /** The contents around children j and j + 1 and the key between them. */
  lemma FocusPair<N>(t: Tree<N>, j: nat)
    requires |t.kids| == |t.keys| + 1 && j < |t.keys|
    ensures Elems(t) == Pre(t.keys[..j], t.kids[..j])
                      + (Elems(t.kids[j]) + [t.keys[j]] + Elems(t.kids[j + 1]))
                      + Post(t.keys[j + 1..], t.kids[j + 2..])
  {
    hide Elems, Pre;
    Focus(t, j);
    assert t.keys[j..][1..] == t.keys[j + 1..] && t.kids[j + 1..][1..] == t.kids[j + 2..];
  }

  /** Leaves have no kids; other nodes have one more kid than keys. */
  ghost predicate Arity<N>(t: Tree<N>) {
    t.kids == [] || |t.kids| == |t.keys| + 1
  }

  ghost predicate SameKind<N>(y: Tree<N>, z: Tree<N>) {
    Arity(y) && Arity(z) && (y.kids == [] <==> z.kids == [])
  }

  /** Two siblings and the key between them, in one node. */
  ghost function Join<N>(y: Tree<N>, k: int, z: Tree<N>): Tree<N> {
    Node(y.at, y.keys + [k] + z.keys, y.kids + z.kids)
  }

  lemma JoinElems<N>(y: Tree<N>, k: int, z: Tree<N>)
    requires SameKind(y, z)
    ensures Elems(Join(y, k, z)) == Elems(y) + [k] + Elems(z)
  {
    if y.kids != [] {
      var j, n := Join(y, k, z), |y.keys|;
      assert j.kids[1..] == y.kids[1..] + z.kids;
      assert j.keys == y.keys + ([k] + z.keys);
      PostConcat(y.keys, y.kids[1..], [k] + z.keys, z.kids);
      JoinTail(k, z);
      assert j.kids[0] == y.kids[0];
      assert Elems(y.kids[0]) + (Post(y.keys, y.kids[1..]) + ([k] + Elems(z))) == Elems(y) + [k] + Elems(z);
    }
  }

  lemma JoinTail<N>(k: int, z: Tree<N>)
    requires z.kids != []
    ensures Post([k] + z.keys, z.kids) == [k] + Elems(z)
  {
    assert ([k] + z.keys)[1..] == z.keys;
  }

  // ----- the rearrangements of a node and its children -----

  ghost function SetKid<N>(t: Tree<N>, i: nat, c: Tree<N>): Tree<N>
    requires i < |t.kids|
  {
    Node(t.at, t.keys, t.kids[i := c])
  }

  /** Children j and j + 1 and the key between them, replaced by children and a key. */
  ghost function SetPair<N>(t: Tree<N>, j: nat, y: Tree<N>, k: int, z: Tree<N>): Tree<N>
    requires j < |t.keys| && |t.kids| == |t.keys| + 1
  {
    Node(t.at, t.keys[j := k], t.kids[j := y][j + 1 := z])
  }

  /** Children j and j + 1 and the key between them, replaced by one child. */
  ghost function FoldPair<N>(t: Tree<N>, j: nat, y: Tree<N>): Tree<N>
    requires j < |t.keys| && |t.kids| == |t.keys| + 1
  {
    Node(t.at, t.keys[..j] + t.keys[j + 1..], t.kids[..j] + [y] + t.kids[j + 2..])
  }

  /** Child i replaced by two children and a key between them. */
  ghost function UnfoldKid<N>(t: Tree<N>, i: nat, y: Tree<N>, k: int, z: Tree<N>): Tree<N>
    requires i < |t.kids| == |t.keys| + 1
  {
    Node(t.at, t.keys[..i] + [k] + t.keys[i..], t.kids[..i] + [y, z] + t.kids[i + 1..])
  }

  lemma SetKidElems<N>(t: Tree<N>, i: nat, c: Tree<N>)
    requires i < |t.kids| == |t.keys| + 1
    ensures Elems(SetKid(t, i, c))
         == Pre(t.keys[..i], t.kids[..i]) + Elems(c) + Post(t.keys[i..], t.kids[i + 1..])
  {
    var t' := SetKid(t, i, c);
    Focus(t', i);
    assert t'.kids[..i] == t.kids[..i] && t'.kids[i + 1..] == t.kids[i + 1..];
  }

  lemma SetPairElems<N>(t: Tree<N>, j: nat, y: Tree<N>, k: int, z: Tree<N>)
    requires j < |t.keys| && |t.kids| == |t.keys| + 1
    ensures Elems(SetPair(t, j, y, k, z))
         == Pre(t.keys[..j], t.kids[..j]) + (Elems(y) + [k] + Elems(z)) + Post(t.keys[j + 1..], t.kids[j + 2..])
  {
    var t' := SetPair(t, j, y, k, z);
    FocusPair(t', j);
    assert t'.keys[..j] == t.keys[..j] && t'.kids[..j] == t.kids[..j];
    assert t'.keys[j + 1..] == t.keys[j + 1..] && t'.kids[j + 2..] == t.kids[j + 2..];
  }

  lemma FoldPairElems<N>(t: Tree<N>, j: nat, y: Tree<N>)
    requires j < |t.keys| && |t.kids| == |t.keys| + 1
    ensures Elems(FoldPair(t, j, y))
         == Pre(t.keys[..j], t.kids[..j]) + Elems(y) + Post(t.keys[j + 1..], t.kids[j + 2..])
  {
    var t' := FoldPair(t, j, y);
    Focus(t', j);
    assert t'.keys[..j] == t.keys[..j] && t'.kids[..j] == t.kids[..j];
    assert t'.keys[j..] == t.keys[j + 1..] && t'.kids[j + 1..] == t.kids[j + 2..];
  }

  lemma UnfoldKidElems<N>(t: Tree<N>, i: nat, y: Tree<N>, k: int, z: Tree<N>)
    requires i < |t.kids| == |t.keys| + 1
    ensures Elems(UnfoldKid(t, i, y, k, z))
         == Pre(t.keys[..i], t.kids[..i]) + (Elems(y) + [k] + Elems(z)) + Post(t.keys[i..], t.kids[i + 1..])
  {
    var t' := UnfoldKid(t, i, y, k, z);
    FocusPair(t', i);
    assert t'.keys[..i] == t.keys[..i] && t'.kids[..i] == t.kids[..i];
    assert t'.keys[i + 1..] == t.keys[i..] && t'.kids[i + 2..] == t.kids[i + 1..];
  }

  /** Folding a pair into its join keeps the contents. */
  lemma MergeKeeps<N>(t: Tree<N>, j: nat)
    requires j < |t.keys| && |t.kids| == |t.keys| + 1 && SameKind(t.kids[j], t.kids[j + 1])
    ensures Elems(FoldPair(t, j, Join(t.kids[j], t.keys[j], t.kids[j + 1]))) == Elems(t)
  {
    FocusPair(t, j);
    JoinElems(t.kids[j], t.keys[j], t.kids[j + 1]);
    FoldPairElems(t, j, Join(t.kids[j], t.keys[j], t.kids[j + 1]));
  }

  /** Moving keys and children between siblings through the key between them keeps the contents. */
  lemma RotateKeeps<N>(t: Tree<N>, j: nat, y: Tree<N>, k: int, z: Tree<N>)
    requires j < |t.keys| && |t.kids| == |t.keys| + 1 && SameKind(t.kids[j], t.kids[j + 1]) && SameKind(y, z)
    requires Join(y, k, z) == Join(t.kids[j], t.keys[j], t.kids[j + 1])
    ensures Elems(SetPair(t, j, y, k, z)) == Elems(t)
  {
    FocusPair(t, j);
    JoinElems(t.kids[j], t.keys[j], t.kids[j + 1]);
    JoinElems(y, k, z);
    SetPairElems(t, j, y, k, z);
  }

  /** Splitting a child into a pair whose join it is keeps the contents. */
  lemma SplitKeeps<N>(t: Tree<N>, i: nat, y: Tree<N>, k: int, z: Tree<N>)
    requires i < |t.kids| == |t.keys| + 1 && SameKind(y, z) && Join(y, k, z) == t.kids[i]
    ensures Elems(UnfoldKid(t, i, y, k, z)) == Elems(t)
  {
    Focus(t, i);
    JoinElems(y, k, z);
    UnfoldKidElems(t, i, y, k, z);
  }

  // ----- shape -----

  /** A B-tree of height h and minimum degree tt whose root has at least lo keys. */
  ghost predicate Ok<N>(t: Tree<N>, tt: nat, h: nat, lo: int)
    decreases h
  {
    && lo <= |t.keys| <= 2 * tt - 1
    && (h == 0 ==> t.kids == [])
    && (h > 0 ==> |t.kids| == |t.keys| + 1 && forall i :: 0 <= i < |t.kids| ==> Ok(t.kids[i], tt, h - 1, tt - 1))
  }

  // ----- the memory nodes of a tree -----

  ghost function Nodes<N>(t: Tree<N>): set<N>
    decreases t, 1
  {
    {t.at} + NodesOf(t.kids)
  }

  ghost function NodesOf<N>(ts: seq<Tree<N>>): set<N>
    decreases ts, 0
  {
    if ts == [] then {} else Nodes(ts[0]) + NodesOf(ts[1..])
  }

  /** No memory node occurs twice. */
  ghost predicate Distinct<N>(t: Tree<N>)
    decreases t, 1
  {
    t.at !in NodesOf(t.kids) && Apart(t.kids)
  }

  ghost predicate Apart<N>(ts: seq<Tree<N>>)
    decreases ts, 0
  {
    ts == [] || (Distinct(ts[0]) && Nodes(ts[0]) !! NodesOf(ts[1..]) && Apart(ts[1..]))
  }

  lemma {:induction false} NodesOfConcat<N>(a: seq<Tree<N>>, b: seq<Tree<N>>)
    ensures NodesOf(a + b) == NodesOf(a) + NodesOf(b)
    decreases |a|
  {
    if a == [] {
      assert a + b == b;
    } else {
      NodesOfConcat(a[1..], b);
      assert (a + b)[1..] == a[1..] + b;
    }
  }

  lemma {:induction false} ApartConcat<N>(a: seq<Tree<N>>, b: seq<Tree<N>>)
    ensures Apart(a + b) <==> Apart(a) && Apart(b) && NodesOf(a) !! NodesOf(b)
    decreases |a|
  {
    if a == [] {
      assert a + b == b;
    } else {
      ApartConcat(a[1..], b);
      NodesOfConcat(a[1..], b);
      assert (a + b)[1..] == a[1..] + b;
    }
  }

  /** All memory nodes around one child, separated into disjoint parts. */
  ghost predicate KidParts<N>(at: N, l: seq<Tree<N>>, y: N, mid: seq<Tree<N>>, r: seq<Tree<N>>) {
    && Apart(l) && Apart(mid) && Apart(r)
    && NodesOf(l) !! NodesOf(mid) && NodesOf(l) !! NodesOf(r) && NodesOf(mid) !! NodesOf(r)
    && at != y
    && at !in NodesOf(l) && at !in NodesOf(mid) && at !in NodesOf(r)
    && y !in NodesOf(l) && y !in NodesOf(mid) && y !in NodesOf(r)
  }

  /** All memory nodes around two neighbouring children, separated into disjoint parts. */
  ghost predicate PairParts<N>(at: N, l: seq<Tree<N>>, y: N, z: N, mid: seq<Tree<N>>, r: seq<Tree<N>>) {
    && KidParts(at, l, y, mid, r)
    && KidParts(at, l, z, mid, r)
    && y != z
  }

  lemma DistinctKid<N>(t: Tree<N>, l: seq<Tree<N>>, y: Tree<N>, r: seq<Tree<N>>)
    requires t.kids == l + [y] + r
    ensures Distinct(t) <==> KidParts(t.at, l, y.at, y.kids, r)
    ensures Nodes(t) == {t.at, y.at} + NodesOf(l) + NodesOf(y.kids) + NodesOf(r)
  {
    ApartConcat(l + [y], r);
    ApartConcat(l, [y]);
    NodesOfConcat(l + [y], r);
    NodesOfConcat(l, [y]);
    assert [y][1..] == [];
  }

  lemma OneKid<N>(z: Tree<N>)
    ensures NodesOf([z]) == Nodes(z) == {z.at} + NodesOf(z.kids)
    ensures Apart([z]) <==> z.at !in NodesOf(z.kids) && Apart(z.kids)
  {
    assert [z][1..] == [];
  }

  lemma TwoKids<N>(y: Tree<N>, z: Tree<N>)
    ensures NodesOf([y, z]) == {y.at, z.at} + NodesOf(y.kids + z.kids)
    ensures Apart([y, z]) <==>
      && Apart(y.kids + z.kids) && y.at != z.at
      && y.at !in NodesOf(y.kids + z.kids) && z.at !in NodesOf(y.kids + z.kids)
  {
    hide Apart, NodesOf, Nodes, Distinct;
    OneKid(y);
    OneKid(z);
    assert [y] + [z] == [y, z];
    ApartConcat([y], [z]);
    NodesOfConcat([y], [z]);
    ApartConcat(y.kids, z.kids);
    NodesOfConcat(y.kids, z.kids);
  }

  lemma DistinctPair<N>(t: Tree<N>, l: seq<Tree<N>>, y: Tree<N>, z: Tree<N>, r: seq<Tree<N>>)
    requires t.kids == l + [y, z] + r
    ensures Distinct(t) <==> PairParts(t.at, l, y.at, z.at, y.kids + z.kids, r)
    ensures Nodes(t) == {t.at, y.at, z.at} + NodesOf(l) + NodesOf(y.kids + z.kids) + NodesOf(r)
  {
    hide Apart, NodesOf;
    TwoKids(y, z);
    ApartConcat(l + [y, z], r);
    ApartConcat(l, [y, z]);
    NodesOfConcat(l, [y, z]);
    NodesOfConcat(l + [y, z], r);
  }
}
