/** The shape of the binary search tree of common/state.c as a value: which node hangs where.
    The heap structure of StateTree is tied to such a shape, so that everything about order and
    bindings is proved here without the heap. */
module StateShape {
  import opened CStrings
  import opened Parseconf

  const ST_MAX_VALUE_LEN := 256

  datatype Flag = Rw | StringFlag | Immutable

  /** st_tree_t. Buffers are the characters before their NUL, with their allocated size. */
  class Node {
    const name: string
    var raw: string
    var rawsize: nat
    var safe: string
    var safesize: nat
    var valIsSafe: bool       // val points to safe, otherwise to raw
    var flags: set<Flag>
    var left: Node?
    var right: Node?

    /** The string that val points to. */
    function Val(): string
      reads this`raw, this`safe, this`valIsSafe
    {
      if valIsSafe then safe else raw
    }

    /** Whichever buffer it points into, the exposed value is the bounded encoding of the raw one. */
    ghost predicate Valid()
      reads this`raw, this`rawsize, this`safe, this`safesize, this`valIsSafe
    {
      && |raw| < rawsize
      && (valIsSafe ==> |safe| < safesize)
      && Val() == BoundedEncode(raw, ST_MAX_VALUE_LEN - 1)
    }

    constructor (name: string, val: string)
      ensures this.name == name && raw == val && flags == {} && left == null && right == null
      ensures Valid()
    {
      this.name := name;
      raw, rawsize := val, |val| + 1;
      safe, safesize, valIsSafe := "", 0, false;
      flags := {};
      left, right := null, null;
      new;
      ValEscape();
    }

    /** val_escape() */
    method ValEscape()
      requires |raw| < rawsize
      modifies this`safe, this`safesize, this`valIsSafe
      ensures Valid()
    {
      var etmp := BoundedEncode(raw, ST_MAX_VALUE_LEN - 1);
      if raw == etmp {
        valIsSafe := false;
        return;
      }
      if safesize < |etmp| + 1 {
        safesize := |etmp| + 1;
      }
      safe := Cut(etmp, safesize);
      valIsSafe := true;
    }

    /** The update of an existing entry in state_setinfo(). */
    method SetRaw(val: string)
      requires Valid()
      modifies this`raw, this`rawsize, this`safe, this`safesize, this`valIsSafe
      ensures Valid() && raw == val
    {
      if rawsize < |val| + 1 {
        rawsize := |val| + 1;
      }
      raw := Cut(val, rawsize);
      ValEscape();
    }
  }

  function Key(n: Node): string {
    Fold(n.name)
  }

  datatype Shape = Leaf | Branch(left: Shape, node: Node, right: Shape)

  ghost function Nodes(s: Shape): set<Node> {
    match s
    case Leaf => {}
    case Branch(l, n, r) => Nodes(l) + {n} + Nodes(r)
  }

  ghost function InOrder(s: Shape): seq<Node> {
    match s
    case Leaf => []
    case Branch(l, n, r) => InOrder(l) + [n] + InOrder(r)
  }

  ghost predicate Below(s: Shape, k: string) {
    forall n :: n in Nodes(s) ==> Less(Key(n), k)
  }

  ghost predicate Above(s: Shape, k: string) {
    forall n :: n in Nodes(s) ==> Less(k, Key(n))
  }

  /** A search tree without two names that differ only in case. */
  ghost predicate Search(s: Shape) {
    match s
    case Leaf => true
    case Branch(l, n, r) => Search(l) && Search(r) && Below(l, Key(n)) && Above(r, Key(n))
  }

  /** The node a name leads to. */
  ghost function MapOf(s: Shape): map<string, Node> {
    match s
    case Leaf => map[]
    case Branch(l, n, r) => MapOf(l) + MapOf(r) + map[Key(n) := n]
  }

  lemma {:induction false} MapOfKeys(s: Shape, k: string)
    requires k in MapOf(s)
    ensures MapOf(s)[k] in Nodes(s) && Key(MapOf(s)[k]) == k
  {
    match s
    case Branch(l, n, r) =>
      if k == Key(n) {
      } else if k in MapOf(r) {
        MapOfKeys(r, k);
      } else {
        MapOfKeys(l, k);
      }
  }

  lemma {:induction false} MapOfNode(s: Shape, n: Node)
    requires Search(s) && n in Nodes(s)
    ensures Key(n) in MapOf(s) && MapOf(s)[Key(n)] == n
  {
    match s
    case Branch(l, m, r) =>
      if n in Nodes(l) {
        MapOfNode(l, n);
        KeyNotAbove(r, Key(m), Key(n));
      } else if n in Nodes(r) {
        MapOfNode(r, n);
      }
  }

  lemma KeyNotAbove(s: Shape, k: string, j: string)
    requires Above(s, k) && Less(j, k)
    ensures j !in MapOf(s)
  {
    if j in MapOf(s) {
      MapOfKeys(s, j);
      CompareAntisymmetric(j, k);
    }
  }

  lemma KeyNotBelow(s: Shape, k: string, j: string)
    requires Below(s, k) && Less(k, j)
    ensures j !in MapOf(s)
  {
    if j in MapOf(s) {
      MapOfKeys(s, j);
      CompareAntisymmetric(j, k);
    }
  }

  /** One comparison of the search decides on which side a name can be. */
  lemma SearchSide(s: Shape, k: string)
    requires s.Branch? && Search(s)
    ensures Less(k, Key(s.node)) ==>
              (k in MapOf(s) <==> k in MapOf(s.left)) && (k in MapOf(s) ==> MapOf(s)[k] == MapOf(s.left)[k])
    ensures Less(Key(s.node), k) ==>
              (k in MapOf(s) <==> k in MapOf(s.right)) && (k in MapOf(s) ==> MapOf(s)[k] == MapOf(s.right)[k])
  {
    if Less(k, Key(s.node)) {
      KeyNotAbove(s.right, Key(s.node), k);
    }
    if Less(Key(s.node), k) {
      KeyNotBelow(s.left, Key(s.node), k);
    }
  }

  // ----- the place a search for k has reached -----

  /** The search for k in s goes through p and from it to the left or right subtree sub. */
  ghost predicate Hole(s: Shape, k: string, p: Node, goLeft: bool, sub: Shape) {
    match s
    case Leaf => false
    case Branch(l, n, r) =>
      if n == p then
        if goLeft then Less(k, Key(n)) && sub == l else Less(Key(n), k) && sub == r
      else if Less(k, Key(n)) then Hole(l, k, p, goLeft, sub)
      else Less(Key(n), k) && Hole(r, k, p, goLeft, sub)
  }

  /** s with t in the place of the subtree that the search reached. */
  ghost function Plug(s: Shape, k: string, p: Node, goLeft: bool, t: Shape): Shape {
    match s
    case Leaf => Leaf
    case Branch(l, n, r) =>
      if n == p then
        if goLeft then Branch(t, n, r) else Branch(l, n, t)
      else if Less(k, Key(n)) then Branch(Plug(l, k, p, goLeft, t), n, r)
      else Branch(l, n, Plug(r, k, p, goLeft, t))
  }

  lemma SidesApart(s: Shape, n: Node)
    requires s.Branch? && Search(s)
    ensures n in Nodes(s.left) ==> n != s.node && n !in Nodes(s.right)
    ensures n in Nodes(s.right) ==> n != s.node && n !in Nodes(s.left)
  {
    var k := Key(s.node);
    CompareAntisymmetric(Key(n), k);
    CompareAntisymmetric(k, k);
  }

  lemma {:induction false} HoleNodes(s: Shape, k: string, p: Node, goLeft: bool, sub: Shape)
    requires Search(s) && Hole(s, k, p, goLeft, sub)
    ensures p in Nodes(s) && Nodes(sub) <= Nodes(s) && p !in Nodes(sub) && Search(sub)
  {
    if s.node == p {
      forall n | n in Nodes(sub) ensures n != p { SidesApart(s, n); }
    } else if Less(k, Key(s.node)) {
      HoleNodes(s.left, k, p, goLeft, sub);
    } else {
      HoleNodes(s.right, k, p, goLeft, sub);
    }
  }

  /** One more step of the search. */
  lemma {:induction false} HoleStep(s: Shape, k: string, p: Node, goLeft: bool, sub: Shape)
    requires Search(s) && Hole(s, k, p, goLeft, sub) && sub.Branch?
    ensures Less(k, Key(sub.node)) ==> Hole(s, k, sub.node, true, sub.left)
    ensures Less(Key(sub.node), k) ==> Hole(s, k, sub.node, false, sub.right)
  {
    CompareAntisymmetric(k, Key(sub.node));
    CompareAntisymmetric(k, Key(s.node));
    HoleNodes(s, k, p, goLeft, sub);
    if s.node != p {
      var side := if Less(k, Key(s.node)) then s.left else s.right;
      HoleNodes(side, k, p, goLeft, sub);
      HoleStep(side, k, p, goLeft, sub);
      SidesApart(s, sub.node);
    }
  }

  /** The name is in the tree exactly if it is in the subtree the search has reached. */
  lemma {:induction false} HoleMap(s: Shape, k: string, p: Node, goLeft: bool, sub: Shape)
    requires Search(s) && Hole(s, k, p, goLeft, sub)
    ensures k in MapOf(s) <==> k in MapOf(sub)
    ensures k in MapOf(s) ==> MapOf(s)[k] == MapOf(sub)[k]
  {
    SearchSide(s, k);
    if s.node != p {
      HoleMap(if Less(k, Key(s.node)) then s.left else s.right, k, p, goLeft, sub);
    }
  }

  lemma {:induction false} PlugNode(s: Shape, k: string, p: Node, goLeft: bool, sub: Shape, t: Shape, n: Node)
    requires Search(s) && Hole(s, k, p, goLeft, sub)
    ensures n in Nodes(Plug(s, k, p, goLeft, t)) <==> (n in Nodes(s) && n !in Nodes(sub)) || n in Nodes(t)
  {
    SidesApart(s, n);
    if s.node != p {
      var side := if Less(k, Key(s.node)) then s.left else s.right;
      HoleNodes(side, k, p, goLeft, sub);
      PlugNode(side, k, p, goLeft, sub, t, n);
    }
  }

  lemma SameElements<T>(a: set<T>, b: set<T>, c: set<T>, d: set<T>)
    requires forall x :: x in a <==> (x in b && x !in c) || x in d
    ensures a == b - c + d
  {
  }

  lemma PlugNodes(s: Shape, k: string, p: Node, goLeft: bool, sub: Shape, t: Shape)
    requires Search(s) && Hole(s, k, p, goLeft, sub)
    ensures Nodes(Plug(s, k, p, goLeft, t)) == Nodes(s) - Nodes(sub) + Nodes(t)
  {
    forall n: Node ensures n in Nodes(Plug(s, k, p, goLeft, t)) <==> (n in Nodes(s) && n !in Nodes(sub)) || n in Nodes(t) {
      PlugNode(s, k, p, goLeft, sub, t, n);
    }
    SameElements(Nodes(Plug(s, k, p, goLeft, t)), Nodes(s), Nodes(sub), Nodes(t));
  }

  /** A replacement that holds nodes of the old subtree, or one named k, keeps the search order. */
  lemma {:induction false} PlugSearch(s: Shape, k: string, p: Node, goLeft: bool, sub: Shape, t: Shape)
    requires Search(s) && Hole(s, k, p, goLeft, sub) && Search(t)
    requires forall n :: n in Nodes(t) ==> n in Nodes(sub) || Key(n) == k
    ensures Search(Plug(s, k, p, goLeft, t))
  {
    hide Compare, Fold;
    if s.node != p {
      var side := if Less(k, Key(s.node)) then s.left else s.right;
      HoleNodes(side, k, p, goLeft, sub);
      PlugSearch(side, k, p, goLeft, sub, t);
      PlugNodes(side, k, p, goLeft, sub, t);
    }
  }

  // ----- deletion -----

  /** l hung under the leftmost node of r. */
  ghost function HangLeft(r: Shape, l: Shape): Shape {
    match r
    case Leaf => l
    case Branch(a, n, b) => Branch(HangLeft(a, l), n, b)
  }

  /** Attaching below r at the place where the name of l's root belongs, all of r being above it,
      is hanging it under the leftmost node. */
  lemma {:induction false} PlugIsHang(r: Shape, k: string, p: Node, goLeft: bool, l: Shape)
    requires Search(r) && Above(r, k) && Hole(r, k, p, goLeft, Leaf)
    ensures Plug(r, k, p, goLeft, l) == HangLeft(r, l)
  {
    CompareAntisymmetric(k, Key(r.node));
    if r.node != p {
      PlugIsHang(r.left, k, p, goLeft, l);
    } else {
      assert HangLeft(Leaf, l) == l;
    }
  }

  ghost predicate AllLess(l: Shape, r: Shape) {
    forall m, n :: m in Nodes(l) && n in Nodes(r) ==> Less(Key(m), Key(n))
  }

  lemma ChildrenOrdered(s: Shape)
    requires s.Branch? && Search(s)
    ensures AllLess(s.left, s.right)
  {
    forall m, n | m in Nodes(s.left) && n in Nodes(s.right) ensures Less(Key(m), Key(n)) {
      LessTransitive(Key(m), Key(s.node), Key(n));
    }
  }

  lemma {:induction false} HangNodes(r: Shape, l: Shape)
    ensures Nodes(HangLeft(r, l)) == Nodes(l) + Nodes(r)
  {
    if r.Branch? { HangNodes(r.left, l); }
  }

  lemma {:induction false} HangSearch(r: Shape, l: Shape)
    requires Search(l) && Search(r) && AllLess(l, r)
    ensures Search(HangLeft(r, l))
  {
    if r.Branch? {
      HangNodes(r.left, l);
      HangSearch(r.left, l);
    }
  }

  /** Hanging leaves the in-order sequence as it was. */
  lemma {:induction false} HangInOrder(r: Shape, l: Shape)
    ensures InOrder(HangLeft(r, l)) == InOrder(l) + InOrder(r)
  {
    match r
    case Leaf =>
    case Branch(a, n, b) =>
      HangInOrder(a, l);
      assert (InOrder(l) + InOrder(a)) + [n] + InOrder(b) == InOrder(l) + (InOrder(a) + [n] + InOrder(b));
  }

  lemma {:induction false} PlugInOrder(s: Shape, k: string, p: Node, goLeft: bool, sub: Shape, t: Shape)
      returns (a: seq<Node>, b: seq<Node>)
    requires Hole(s, k, p, goLeft, sub)
    ensures InOrder(s) == a + InOrder(sub) + b
    ensures InOrder(Plug(s, k, p, goLeft, t)) == a + InOrder(t) + b
  {
    var l, n, r := InOrder(s.left), s.node, InOrder(s.right);
    if n == p {
      a, b := if goLeft then [] else l + [n], if goLeft then [n] + r else [];
    } else if Less(k, Key(n)) {
      var a', b' := PlugInOrder(s.left, k, p, goLeft, sub, t);
      a, b := a', b' + ([n] + r);
      SeqRegroup(a', InOrder(sub), b', [n], r);
      SeqRegroup(a', InOrder(t), b', [n], r);
    } else {
      var a', b' := PlugInOrder(s.right, k, p, goLeft, sub, t);
      a, b := (l + [n]) + a', b';
      SeqRegroup'(l, [n], a', InOrder(sub), b');
      SeqRegroup'(l, [n], a', InOrder(t), b');
    }
  }

  lemma SeqRegroup<T>(a: seq<T>, m: seq<T>, b: seq<T>, n: seq<T>, r: seq<T>)
    ensures (a + m + b) + n + r == a + m + (b + (n + r))
  {
  }

  lemma SeqRegroup'<T>(l: seq<T>, n: seq<T>, a: seq<T>, m: seq<T>, b: seq<T>)
    ensures l + n + (a + m + b) == ((l + n) + a) + m + b
  {
  }

  /** The whole tree after deleting the root of the subtree that the search reached. */
  ghost function Deleted(s: Shape, k: string, p: Node?, goLeft: bool, sub: Shape): Shape
    requires sub.Branch?
  {
    var t := HangLeft(sub.right, sub.left);
    if p == null then t else Plug(s, k, p, goLeft, t)
  }

  ghost predicate Reached(s: Shape, k: string, p: Node?, goLeft: bool, sub: Shape) {
    if p == null then sub == s else Hole(s, k, p, goLeft, sub)
  }

  /** Deletion removes exactly one entry of the in-order sequence and nothing else. */
  lemma DeletedInOrder(s: Shape, k: string, p: Node?, goLeft: bool, sub: Shape) returns (a: seq<Node>, b: seq<Node>)
    requires Reached(s, k, p, goLeft, sub) && sub.Branch?
    ensures InOrder(s) == a + [sub.node] + b
    ensures InOrder(Deleted(s, k, p, goLeft, sub)) == a + b
  {
    var t := HangLeft(sub.right, sub.left);
    var l, r := InOrder(sub.left), InOrder(sub.right);
    HangInOrder(sub.right, sub.left);
    if p == null {
      a, b := l, r;
    } else {
      var a', b' := PlugInOrder(s, k, p, goLeft, sub, t);
      a, b := a' + l, r + b';
      assert a' + (l + [sub.node] + r) + b' == (a' + l) + [sub.node] + (r + b');
      assert a' + (l + r) + b' == (a' + l) + (r + b');
    }
  }

  /** A name is bound exactly if a node has it. */
  lemma MapOfIff(s: Shape, k: string, n: Node)
    requires Search(s)
    ensures k in MapOf(s) && MapOf(s)[k] == n <==> n in Nodes(s) && Key(n) == k
  {
    if k in MapOf(s) { MapOfKeys(s, k); }
    if n in Nodes(s) { MapOfNode(s, n); }
  }

  /** Two search trees over nodes that differ by one agree on every other name. */
  lemma MapOfPlusNode(s: Shape, s': Shape, n: Node)
    requires Search(s) && Search(s') && Nodes(s') == Nodes(s) + {n} && n !in Nodes(s)
    ensures Key(n) !in MapOf(s) && MapOf(s') == MapOf(s)[Key(n) := n]
  {
    hide MapOf, Nodes, Search, Fold;
    MapOfIff(s', Key(n), n);
    if Key(n) in MapOf(s) {
      var m := MapOf(s)[Key(n)];
      MapOfIff(s, Key(n), m);
      MapOfIff(s', Key(n), m);
    }
    var m' := MapOf(s)[Key(n) := n];
    forall k | k in m' ensures k in MapOf(s') && MapOf(s')[k] == m'[k] {
      if k != Key(n) {
        MapOfIff(s, k, m'[k]);
        MapOfIff(s', k, m'[k]);
      }
    }
    forall k | k in MapOf(s') ensures k in m' {
      MapOfIff(s', k, MapOf(s')[k]);
      MapOfIff(s, k, MapOf(s')[k]);
    }
  }

  lemma DeletedNodes(s: Shape, k: string, p: Node?, goLeft: bool, sub: Shape)
    requires Search(s) && Reached(s, k, p, goLeft, sub) && sub.Branch? && Key(sub.node) == k
    ensures sub.node in Nodes(s)
    ensures Nodes(Deleted(s, k, p, goLeft, sub)) == Nodes(s) - {sub.node}
  {
    hide Search, HangLeft, Hole, Compare, Fold;
    var t := HangLeft(sub.right, sub.left);
    HangNodes(sub.right, sub.left);
    if p != null {
      HoleNodes(s, k, p, goLeft, sub);
      PlugNodes(s, k, p, goLeft, sub, t);
    }
    SidesApart(sub, sub.node);
  }

  lemma DeletedSearch(s: Shape, k: string, p: Node?, goLeft: bool, sub: Shape)
    requires Search(s) && Reached(s, k, p, goLeft, sub) && sub.Branch? && Key(sub.node) == k
    ensures Search(Deleted(s, k, p, goLeft, sub))
  {
    var t := HangLeft(sub.right, sub.left);
    if p != null { HoleNodes(s, k, p, goLeft, sub); }
    ChildrenOrdered(sub);
    HangNodes(sub.right, sub.left);
    HangSearch(sub.right, sub.left);
    if p != null { PlugSearch(s, k, p, goLeft, sub, t); }
  }

  lemma UnbindOne(s': Shape, s: Shape, n: Node)
    requires Search(s) && Search(s') && Nodes(s') == Nodes(s) - {n} && n in Nodes(s)
    ensures MapOf(s') == MapOf(s) - {Key(n)}
  {
    MapOfPlusNode(s', s, n);
    Rebind(MapOf(s'), Key(n), n);
  }

  lemma Rebind<K, V>(m: map<K, V>, k: K, v: V)
    requires k !in m
    ensures m[k := v] - {k} == m
  {
  }

  /** Deletion unbinds exactly the deleted name. */
  lemma DeletedMap(s: Shape, k: string, p: Node?, goLeft: bool, sub: Shape)
    requires Search(s) && Reached(s, k, p, goLeft, sub) && sub.Branch? && Key(sub.node) == k
    ensures Search(Deleted(s, k, p, goLeft, sub))
    ensures MapOf(Deleted(s, k, p, goLeft, sub)) == MapOf(s) - {k}
  {
    DeletedSearch(s, k, p, goLeft, sub);
    DeletedNodes(s, k, p, goLeft, sub);
    UnbindOne(Deleted(s, k, p, goLeft, sub), s, sub.node);
  }

  // ----- links -----

  ghost function RootOf(s: Shape): Node? {
    if s.Leaf? then null else s.node
  }

  /** The left child that the shape gives to one of its nodes. */
  ghost function LeftOf(s: Shape, n: Node): Node? {
    match s
    case Leaf => null
    case Branch(l, m, r) =>
      if n == m then RootOf(l) else if n in Nodes(l) then LeftOf(l, n) else LeftOf(r, n)
  }

  ghost function RightOf(s: Shape, n: Node): Node? {
    match s
    case Leaf => null
    case Branch(l, m, r) =>
      if n == m then RootOf(r) else if n in Nodes(l) then RightOf(l, n) else RightOf(r, n)
  }

  lemma {:induction false} HoleLinks(s: Shape, k: string, p: Node, goLeft: bool, sub: Shape)
    requires Search(s) && Hole(s, k, p, goLeft, sub)
    ensures RootOf(sub) == if goLeft then LeftOf(s, p) else RightOf(s, p)
    ensures forall n :: n in Nodes(sub) ==> LeftOf(s, n) == LeftOf(sub, n) && RightOf(s, n) == RightOf(sub, n)
  {
    HoleNodes(s, k, p, goLeft, sub);
    forall n | n in Nodes(s) ensures n in Nodes(s.right) ==> n != s.node && n !in Nodes(s.left) { SidesApart(s, n); }
    forall n | n in Nodes(s.left) ensures n != s.node { SidesApart(s, n); }
    if s.node != p {
      var side := if Less(k, Key(s.node)) then s.left else s.right;
      HoleNodes(side, k, p, goLeft, sub);
      HoleLinks(side, k, p, goLeft, sub);
    }
  }

  /** The links of the plugged tree: those of t inside t, the new child at p, the old ones elsewhere. */
  lemma {:induction false} PlugLinks(s: Shape, k: string, p: Node, goLeft: bool, sub: Shape, t: Shape, n: Node)
    requires Search(s) && Hole(s, k, p, goLeft, sub)
    requires Nodes(t) !! Nodes(s) - Nodes(sub)
    requires n in Nodes(s) - Nodes(sub) || n in Nodes(t)
    ensures RootOf(Plug(s, k, p, goLeft, t)) == RootOf(s)
    ensures n in Nodes(Plug(s, k, p, goLeft, t))
    ensures LeftOf(Plug(s, k, p, goLeft, t), n)
            == if n in Nodes(t) then LeftOf(t, n) else if n == p && goLeft then RootOf(t) else LeftOf(s, n)
    ensures RightOf(Plug(s, k, p, goLeft, t), n)
            == if n in Nodes(t) then RightOf(t, n) else if n == p && !goLeft then RootOf(t) else RightOf(s, n)
  {
    HoleNodes(s, k, p, goLeft, sub);
    SidesApart(s, n);
    SidesApart(s, p);
    if s.node != p {
      var side := if Less(k, Key(s.node)) then s.left else s.right;
      HoleNodes(side, k, p, goLeft, sub);
      forall m | m in Nodes(sub) ensures m != s.node { SidesApart(s, m); }
      if n in Nodes(side) || n in Nodes(t) {
        PlugLinks(side, k, p, goLeft, sub, t, n);
      }
      PlugNodes(side, k, p, goLeft, sub, t);
    }
  }

  /** The subtree a search has reached, and what its root decides. */
  lemma ReachedFacts(s: Shape, k: string, p: Node?, goLeft: bool, sub: Shape)
    requires Search(s) && Reached(s, k, p, goLeft, sub)
    ensures Search(sub) && Nodes(sub) <= Nodes(s)
    ensures sub.Leaf? ==> k !in MapOf(s)
    ensures sub.Branch? && Key(sub.node) == k ==> k in MapOf(s) && MapOf(s)[k] == sub.node
  {
    if p != null {
      HoleNodes(s, k, p, goLeft, sub);
      HoleMap(s, k, p, goLeft, sub);
    }
  }

  lemma ReachStep(s: Shape, k: string, p: Node?, goLeft: bool, sub: Shape)
    requires Search(s) && Reached(s, k, p, goLeft, sub) && sub.Branch?
    ensures Less(k, Key(sub.node)) ==>
              Reached(s, k, sub.node, true, sub.left) && LeftOf(s, sub.node) == RootOf(sub.left)
    ensures Less(Key(sub.node), k) ==>
              Reached(s, k, sub.node, false, sub.right) && RightOf(s, sub.node) == RootOf(sub.right)
  {
    if p != null {
      HoleStep(s, k, p, goLeft, sub);
      if Less(k, Key(sub.node)) { HoleLinks(s, k, sub.node, true, sub.left); }
      if Less(Key(sub.node), k) { HoleLinks(s, k, sub.node, false, sub.right); }
    }
  }

  /** The whole tree with a new node at the empty place that the search reached. */
  ghost function Inserted(s: Shape, k: string, p: Node?, goLeft: bool, n: Node): Shape {
    var t := Branch(Leaf, n, Leaf);
    if p == null then t else Plug(s, k, p, goLeft, t)
  }

  /** Insertion binds exactly the new name. */
  lemma InsertedMap(s: Shape, k: string, p: Node?, goLeft: bool, n: Node)
    requires Search(s) && Reached(s, k, p, goLeft, Leaf) && n !in Nodes(s) && Key(n) == k
    ensures Search(Inserted(s, k, p, goLeft, n))
    ensures Nodes(Inserted(s, k, p, goLeft, n)) == Nodes(s) + {n}
    ensures MapOf(Inserted(s, k, p, goLeft, n)) == MapOf(s)[k := n]
  {
    hide MapOf, Compare, Fold, Hole;
    var t := Branch(Leaf, n, Leaf);
    if p != null {
      PlugSearch(s, k, p, goLeft, Leaf, t);
      PlugNodes(s, k, p, goLeft, Leaf, t);
    }
    MapOfPlusNode(s, Inserted(s, k, p, goLeft, n), n);
  }

  /** The links inside the two children of a subtree that the search has reached. */
  lemma ChildLinks(s: Shape, k: string, p: Node?, goLeft: bool, sub: Shape, n: Node)
    requires Search(s) && Reached(s, k, p, goLeft, sub) && sub.Branch?
    ensures n in Nodes(sub.left) ==> LeftOf(s, n) == LeftOf(sub.left, n) && RightOf(s, n) == RightOf(sub.left, n)
    ensures n in Nodes(sub.right) ==> LeftOf(s, n) == LeftOf(sub.right, n) && RightOf(s, n) == RightOf(sub.right, n)
    ensures LeftOf(s, sub.node) == RootOf(sub.left) && RightOf(s, sub.node) == RootOf(sub.right)
  {
    if p != null {
      HoleNodes(s, k, p, goLeft, sub);
      HoleLinks(s, k, p, goLeft, sub);
    }
    SidesApart(sub, n);
  }
}
