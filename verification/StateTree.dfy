/** common/state.c: the variable store, a binary search tree of heap nodes that the operations
    splice in place. Every operation is proved against a map keyed by the folded name. */
module StateTree {
  import opened CStrings
  import opened Parseconf
  import opened StateShape

  /** What the store holds for one variable. */
  datatype Entry = Entry(name: string, raw: string, flags: set<Flag>)

  type Bindings = map<string, Entry>

  // ----- the operations on values -----

  /** state_setinfo(): 0 for no change. A value that differs only in case is no change, and
      immutable entries do not change; an entry keeps the spelling it was created with. */
  predicate Ignored(m: Bindings, name: string, val: string) {
    var k := Fold(name);
    k in m && (Fold(m[k].raw) == Fold(val) || Immutable in m[k].flags)
  }

  function AfterSet(m: Bindings, name: string, val: string): Bindings {
    var k := Fold(name);
    if Ignored(m, name, val) then m
    else if k in m then m[k := m[k].(raw := val)]
    else m[k := Entry(name, val, {})]
  }

  function AfterDelete(m: Bindings, name: string): Bindings {
    m - {Fold(name)}
  }

  /** dstate_setflags() */
  function AfterSetFlags(m: Bindings, name: string, flags: set<Flag>): Bindings {
    var k := Fold(name);
    if k in m && Immutable !in m[k].flags then m[k := m[k].(flags := flags)] else m
  }

  datatype Op =
    | SetInfo(name: string, val: string)
    | DelInfo(name: string)
    | SetFlags(name: string, flags: set<Flag>)

  function Apply(m: Bindings, op: Op): Bindings {
    match op
    case SetInfo(name, val) => AfterSet(m, name, val)
    case DelInfo(name) => AfterDelete(m, name)
    case SetFlags(name, flags) => AfterSetFlags(m, name, flags)
  }

  function ApplyAll(m: Bindings, ops: seq<Op>): Bindings
    decreases |ops|
  {
    if ops == [] then m else ApplyAll(Apply(m, ops[0]), ops[1..])
  }

  /** What a set does, entry by entry. */
  lemma SetEntries(m: Bindings, name: string, val: string)
    ensures var k, m' := Fold(name), AfterSet(m, name, val);
            && m' - {k} == m - {k} && k in m'
            && (k !in m ==> m'[k] == Entry(name, val, {}))
            && (k in m && (Immutable in m[k].flags || Fold(m[k].raw) == Fold(val)) ==> m' == m)
            && (k in m && !(Immutable in m[k].flags || Fold(m[k].raw) == Fold(val)) ==> m'[k] == m[k].(raw := val))
    ensures Ignored(m, name, val)
            <==> Fold(name) in m && (Immutable in m[Fold(name)].flags || Fold(m[Fold(name)].raw) == Fold(val))
  {
    hide Fold;
    var k, m' := Fold(name), AfterSet(m, name, val);
    assert m' - {k} == m - {k};
  }

  // ----- what a history leaves -----

  predicate Sets(op: Op, k: string) {
    op.SetInfo? && Fold(op.name) == k
  }

  predicate Deletes(op: Op, k: string) {
    op.DelInfo? && Fold(op.name) == k
  }

  /** No operation makes the variable immutable. */
  ghost predicate StaysMutable(ops: seq<Op>, k: string) {
    forall i :: 0 <= i < |ops| && ops[i].SetFlags? && Fold(ops[i].name) == k ==> Immutable !in ops[i].flags
  }

  /** The variable was set at j and not deleted since. */
  ghost predicate LiveSet(ops: seq<Op>, k: string, j: int) {
    0 <= j < |ops| && Sets(ops[j], k) && forall i :: j < i < |ops| ==> !Deletes(ops[i], k)
  }

  /** What was set at j differs by more than case from what was set last before it, if it was not
      deleted in between. */
  ghost predicate NewValue(ops: seq<Op>, k: string, j: int)
    requires 0 <= j < |ops| && ops[j].SetInfo?
  {
    forall p :: 0 <= p < j && Sets(ops[p], k) && (forall i :: p < i < j ==> !Sets(ops[i], k) && !Deletes(ops[i], k))
      ==> Fold(ops[p].val) != Fold(ops[j].val)
  }

  /** The set that counts: live, a new value, and followed by the same value in any case at most. */
  ghost predicate Counts(ops: seq<Op>, k: string, j: int) {
    && LiveSet(ops, k, j) && NewValue(ops, k, j)
    && forall i :: j < i < |ops| && Sets(ops[i], k) ==> Fold(ops[i].val) == Fold(ops[j].val)
  }

  /** The variable is there if and only if it was set and not deleted since, with the value of the
      set that counts. */
  ghost predicate HoldsHistory(m: Bindings, ops: seq<Op>, k: string) {
    && (k in m <==> exists j :: LiveSet(ops, k, j))
    && (k in m ==> Immutable !in m[k].flags && exists j :: Counts(ops, k, j) && m[k].raw == ops[j].val)
  }

  lemma {:induction false} ApplyAllSnoc(m: Bindings, ops: seq<Op>, op: Op)
    ensures ApplyAll(m, ops + [op]) == Apply(ApplyAll(m, ops), op)
    decreases |ops|
  {
    hide Apply;
    if ops == [] {
      assert ops + [op] == [op] && [op][1..] == [];
    } else {
      assert (ops + [op])[1..] == ops[1..] + [op];
      ApplyAllSnoc(Apply(m, ops[0]), ops[1..], op);
    }
  }

  /** After any history of a store that began empty, a variable that was never made immutable is
      there if and only if it was set and not deleted since, and its value is the one of the set
      that counts. */
  lemma {:induction false} StoredValue(ops: seq<Op>, k: string)
    requires StaysMutable(ops, k)
    ensures HoldsHistory(ApplyAll(map[], ops), ops, k)
    decreases |ops|
  {
    if ops != [] {
      var n := |ops| - 1;
      var before, op := ops[..n], ops[n];
      assert ops == before + [op];
      assert StaysMutable(before, k);
      StoredValue(before, k);
      ApplyAllSnoc(map[], before, op);
      var m := ApplyAll(map[], before);
      hide ApplyAll;
      HistoryStep(before, op, k, m);
    }
  }

  lemma HistoryStep(before: seq<Op>, op: Op, k: string, m: Bindings)
    requires StaysMutable(before + [op], k)
    requires HoldsHistory(m, before, k)
    ensures HoldsHistory(Apply(m, op), before + [op], k)
  {
    hide Fold;
    var ops, n := before + [op], |before|;
    assert ops[n] == op && forall i :: 0 <= i < n ==> ops[i] == before[i];
    var m' := Apply(m, op);
    if Deletes(op, k) {
      assert forall j :: !LiveSet(ops, k, j);
    } else if Sets(op, k) {
      SetEntries(m, op.name, op.val);
      assert LiveSet(ops, k, n);
      if k in m && Fold(m[k].raw) == Fold(op.val) {
        var j :| Counts(before, k, j) && m[k].raw == before[j].val;
        CountsOn(before, op, k, j);
      } else {
        NewCounts(before, op, k, m);
      }
    } else {
      OtherKept(m, op, k);
      forall j ensures LiveSet(before, k, j) <==> LiveSet(ops, k, j) { LiveOn(before, op, k, j); }
      if k in m {
        var j :| Counts(before, k, j) && m[k].raw == before[j].val;
        CountsOn(before, op, k, j);
      }
    }
  }

  lemma OtherKept(m: Bindings, op: Op, k: string)
    requires !Sets(op, k) && !Deletes(op, k)
    ensures k in Apply(m, op) <==> k in m
    ensures k in m ==> Apply(m, op)[k].raw == m[k].raw
    ensures k in m && !(op.SetFlags? && Fold(op.name) == k) ==> Apply(m, op)[k].flags == m[k].flags
    ensures k in m && op.SetFlags? && Fold(op.name) == k ==> Apply(m, op)[k].flags == m[k].flags || Apply(m, op)[k].flags == op.flags
  {
    hide Fold;
  }

  lemma LiveOn(before: seq<Op>, op: Op, k: string, j: int)
    requires !Deletes(op, k) && !Sets(op, k)
    ensures LiveSet(before, k, j) <==> LiveSet(before + [op], k, j)
  {
    hide Fold;
    var ops := before + [op];
    assert ops[|before|] == op && forall i :: 0 <= i < |before| ==> ops[i] == before[i];
  }

  lemma CountsOn(before: seq<Op>, op: Op, k: string, j: int)
    requires Counts(before, k, j) && !Deletes(op, k) && (Sets(op, k) ==> Fold(op.val) == Fold(before[j].val))
    ensures Counts(before + [op], k, j) && (before + [op])[j] == before[j]
  {
    hide Fold;
    var ops := before + [op];
    assert ops[|before|] == op && forall i :: 0 <= i < |before| ==> ops[i] == before[i];
  }

  lemma NewCounts(before: seq<Op>, op: Op, k: string, m: Bindings)
    requires Sets(op, k) && (k in m <==> exists j :: LiveSet(before, k, j))
    requires k in m ==> Fold(m[k].raw) != Fold(op.val) && exists j :: Counts(before, k, j) && m[k].raw == before[j].val
    ensures Counts(before + [op], k, |before|)
  {
    hide Fold;
    var ops, n := before + [op], |before|;
    assert ops[n] == op && forall i :: 0 <= i < n ==> ops[i] == before[i];
    forall p | 0 <= p < n && Sets(ops[p], k) && (forall i :: p < i < n ==> !Sets(ops[i], k) && !Deletes(ops[i], k))
      ensures Fold(ops[p].val) != Fold(op.val)
    {
      assert forall i :: p < i < n ==> !Sets(before[i], k) && !Deletes(before[i], k) by {
        assert forall i :: p < i < n ==> before[i] == ops[i];
      }
      assert LiveSet(before, k, p);
      var j :| Counts(before, k, j) && m[k].raw == before[j].val;
      assert j <= p;
    }
  }

  /** An immutable variable keeps its value through any operations that do not delete it. */
  lemma {:induction false} ImmutableStays(m: Bindings, ops: seq<Op>, k: string)
    requires k in m && Immutable in m[k].flags
    requires forall i :: 0 <= i < |ops| && ops[i].DelInfo? ==> Fold(ops[i].name) != k
    ensures k in ApplyAll(m, ops) && ApplyAll(m, ops)[k] == m[k]
    decreases |ops|
  {
    if ops != [] {
      ImmutableStays(Apply(m, ops[0]), ops[1..], k);
    }
  }

  /** Quoting the exposed value and parsing it gives back the raw value if and only if that is
      printable, within the parser's word limit, and its encoding fits the escape buffer. */
  lemma ExposedRoundTripIff(lim: Limits, raw: string)
    ensures ParseLine(lim, FRESH, "\"" + BoundedEncode(raw, ST_MAX_VALUE_LEN - 1) + "\"").args == [raw]
            <==> WordOk(lim, raw) && |Encode(raw)| < ST_MAX_VALUE_LEN
  {
    hide Encode, Fit, Feed, BoundedEncode;
    var room := ST_MAX_VALUE_LEN - 1;
    var n := Fit(raw, room);
    TruncatedQuoteReadsPrefix(lim, FRESH, raw, room);
    FitIsLongest(raw, room, |raw|);
    var w := Clean(lim, raw[..n]);
    assert ParseLine(lim, FRESH, "\"" + BoundedEncode(raw, room) + "\"").args == [w];
    if n == |raw| {
      assert raw[..n] == raw;
      assert w == raw <==> WordOk(lim, raw);
    } else {
      assert |w| < |raw|;
    }
  }

  // ----- the store -----

  function EntryOf(n: Node): Entry
    reads n`raw, n`flags
  {
    Entry(n.name, n.raw, n.flags)
  }

  /** The heap links of a shape's nodes are those of the shape. */
  ghost predicate Links(s: Shape, ns: set<Node>)
    reads ns`left, ns`right
  {
    && ns == Nodes(s)
    && forall n :: n in ns ==> n.left == LeftOf(s, n) && n.right == RightOf(s, n)
  }

  /** What one comparison of a walk knows: where the name lies and where the link leads. */
  lemma Look(s: Shape, ns: set<Node>, k: string, parent: Node?, goLeft: bool, node: Node?, sub: Shape)
    requires Search(s) && Links(s, ns) && Reached(s, k, parent, goLeft, sub) && node == RootOf(sub)
    ensures node == null ==> k !in MapOf(s)
    ensures node != null ==> node in ns && sub.Branch? && sub.node == node
    ensures node != null && Compare(Key(node), k) > 0 ==>
              Reached(s, k, node, true, sub.left) && node.left == RootOf(sub.left)
    ensures node != null && Compare(Key(node), k) < 0 ==>
              Reached(s, k, node, false, sub.right) && node.right == RootOf(sub.right)
    ensures node != null && Compare(Key(node), k) == 0 ==> k in MapOf(s) && MapOf(s)[k] == node
  {
    ReachedFacts(s, k, parent, goLeft, sub);
    if node != null {
      ReachStep(s, k, parent, goLeft, sub);
      CompareAntisymmetric(k, Key(node));
      assert node in Nodes(sub);
    }
  }

  /** The walk shared by all operations: the link that the search for a name follows last, and
      the node it leads to, null if the name is not in the tree. */
  method Walk(root: Node?, name: string, ghost s: Shape, ghost ns: set<Node>, ghost index: map<string, Node>)
      returns (parent: Node?, goLeft: bool, node: Node?, ghost sub: Shape)
    requires Search(s) && Links(s, ns) && root == RootOf(s) && index == MapOf(s)
    ensures Reached(s, Fold(name), parent, goLeft, sub) && node == RootOf(sub)
    ensures node == null <==> Fold(name) !in index
    ensures node != null ==> index[Fold(name)] == node
  {
    ghost var k := Fold(name);
    parent, goLeft, node := null, false, root;
    sub := s;
    while node != null
      invariant Reached(s, k, parent, goLeft, sub)
      invariant node == RootOf(sub)
      decreases sub
    {
      Look(s, ns, k, parent, goLeft, node, sub);
      if CaseCompare(node.name, name) > 0 {
        parent, goLeft, node, sub := node, true, node.left, sub.left;
      } else if CaseCompare(node.name, name) < 0 {
        parent, goLeft, node, sub := node, false, node.right, sub.right;
      } else {
        return;
      }
    }
    Look(s, ns, k, parent, goLeft, node, sub);
  }

  /** The heap after one link is written: the nodes outside the replaced subtree keep the links of
      the old shape, except for the new child of p. */
  ghost predicate LinkWritten(s: Shape, ns: set<Node>, p: Node, goLeft: bool, t: Shape)
    reads ns, p
  {
    && (forall n :: n in ns && n != p ==> n.left == LeftOf(s, n) && n.right == RightOf(s, n))
    && p.left == (if goLeft then RootOf(t) else LeftOf(s, p))
    && p.right == (if goLeft then RightOf(s, p) else RootOf(t))
  }

  /** Writing that link turns the shape into the plugged one. */
  lemma PlugIsLinked(s: Shape, ns: set<Node>, k: string, p: Node, goLeft: bool, sub: Shape, t: Shape, ts: set<Node>)
    requires Search(s) && Hole(s, k, p, goLeft, sub)
    requires ns == Nodes(s) - Nodes(sub) && ns !! ts
    requires Links(t, ts) && LinkWritten(s, ns, p, goLeft, t)
    ensures Links(Plug(s, k, p, goLeft, t), ns + ts) && RootOf(Plug(s, k, p, goLeft, t)) == RootOf(s)
  {
    HoleNodes(s, k, p, goLeft, sub);
    PlugNodes(s, k, p, goLeft, sub, t);
    PlugLinks(s, k, p, goLeft, sub, t, p);
    forall n | n in ns + ts
      ensures n.left == LeftOf(Plug(s, k, p, goLeft, t), n) && n.right == RightOf(Plug(s, k, p, goLeft, t), n)
    {
      PlugLinks(s, k, p, goLeft, sub, t, n);
    }
  }

  lemma HangPlace(r: Shape, l: Shape)
    requires Search(r) && AllLess(l, r) && l.Branch?
    ensures Above(r, Key(l.node)) && Key(l.node) !in MapOf(r)
    ensures Nodes(l) !! Nodes(r)
  {
    var k := Key(l.node);
    CompareAntisymmetric(k, k);
    if k in MapOf(r) { MapOfKeys(r, k); }
    forall n | n in Nodes(l) ensures n !in Nodes(r) { CompareAntisymmetric(Key(n), Key(n)); }
  }

  lemma HangIsLinked(r: Shape, rn: set<Node>, p: Node, goLeft: bool, l: Shape, ln: set<Node>)
    requires Search(r) && AllLess(l, r) && l.Branch? && rn == Nodes(r) && Links(l, ln)
    requires Hole(r, Key(l.node), p, goLeft, Leaf) && LinkWritten(r, rn, p, goLeft, l)
    ensures Links(HangLeft(r, l), rn + ln) && RootOf(HangLeft(r, l)) == RootOf(r)
  {
    HangPlace(r, l);
    PlugIsLinked(r, rn, Key(l.node), p, goLeft, Leaf, l, ln);
    PlugIsHang(r, Key(l.node), p, goLeft, l);
  }

  /** The write that ends st_tree_node_add(), below a node of the receiving tree. */
  method Hang(parent: Node, goLeft: bool, sptr: Node, ghost r: Shape, ghost rn: set<Node>, ghost l: Shape, ghost ln: set<Node>)
    requires Search(r) && AllLess(l, r) && Links(r, rn) && Links(l, ln) && l.Branch? && sptr == l.node
    requires Hole(r, Key(sptr), parent, goLeft, Leaf)
    modifies parent`left, parent`right
    ensures Links(HangLeft(r, l), rn + ln) && RootOf(HangLeft(r, l)) == RootOf(r)
  {
    HangPlace(r, l);
    HoleNodes(r, Key(sptr), parent, goLeft, Leaf);
    SetLink(parent, goLeft, sptr);
    HangIsLinked(r, rn, parent, goLeft, l, ln);
  }

  /** st_tree_node_add(): hangs the tree at sptr into the tree at root, whose new root it returns.
      The branch for a duplicate name is never taken. */
  method NodeAdd(root: Node?, sptr: Node?, ghost r: Shape, ghost rn: set<Node>, ghost l: Shape, ghost ln: set<Node>)
      returns (newRoot: Node?, duplicate: bool)
    requires Search(r) && Search(l) && AllLess(l, r) && Links(r, rn) && Links(l, ln)
    requires root == RootOf(r) && sptr == RootOf(l)
    modifies rn`left, rn`right
    ensures !duplicate && newRoot == RootOf(HangLeft(r, l)) && Links(HangLeft(r, l), rn + ln)
  {
    newRoot, duplicate := root, false;
    if sptr == null {
      HangNothing(r);
      return;
    }
    HangPlace(r, l);
    var parent, goLeft, node, sub := Walk(root, sptr.name, r, rn, MapOf(r));
    duplicate := node != null;
    if duplicate {
      assert false;
    } else if parent == null {
      HangUnderLeaf(r, l);
      newRoot := sptr;
    } else {
      HoleNodes(r, Key(sptr), parent, goLeft, sub);
      Hang(parent, goLeft, sptr, r, rn, l, ln);
    }
  }

  lemma HangUnderLeaf(r: Shape, l: Shape)
    requires r == Leaf
    ensures HangLeft(r, l) == l && Nodes(r) == {}
  {
  }

  lemma {:induction false} HangNothing(r: Shape)
    ensures HangLeft(r, Leaf) == r && Nodes(Leaf) == {}
  {
    if r.Branch? { HangNothing(r.left); }
  }

  /** The nodes of a tree, split at a subtree. */
  lemma Partition(nodes: set<Node>, sub: set<Node>, l: set<Node>, n: Node, r: set<Node>, out: set<Node>)
    requires sub == l + {n} + r && sub <= nodes && n !in l && n !in r && out == nodes - sub
    ensures nodes - {n} == out + (r + l) && out !! r + l && n !in out
  {
  }

  /** The write that ends a deletion below the root. */
  method WriteBelow(ghost k: string, parent: Node, goLeft: bool, child: Node?, ghost s: Shape, ghost out: set<Node>,
                    ghost sub: Shape, ghost t: Shape, ghost ts: set<Node>)
    requires Search(s) && Hole(s, k, parent, goLeft, sub) && out == Nodes(s) - Nodes(sub) && out !! ts
    requires forall n :: n in out ==> n.left == LeftOf(s, n) && n.right == RightOf(s, n)
    requires Links(t, ts) && child == RootOf(t)
    modifies parent`left, parent`right
    ensures Links(Plug(s, k, parent, goLeft, t), out + ts) && RootOf(Plug(s, k, parent, goLeft, t)) == RootOf(s)
  {
    HoleNodes(s, k, parent, goLeft, sub);
    SetLink(parent, goLeft, child);
    PlugIsLinked(s, out, k, parent, goLeft, sub, t, ts);
  }

  /** The first half of a deletion: whatever is on the left is hung off the right child. */
  method HangChildren(node: Node, ghost l: Shape, ghost ln: set<Node>, ghost r: Shape, ghost rn: set<Node>)
    requires Search(r) && Search(l) && AllLess(l, r) && Links(r, rn) && Links(l, ln)
    requires node !in ln && node !in rn && node.left == RootOf(l) && node.right == RootOf(r)
    modifies rn`left, rn`right, node`right
    ensures node.right == RootOf(HangLeft(r, l)) && Links(HangLeft(r, l), rn + ln)
  {
    var newRight, duplicate := NodeAdd(node.right, node.left, r, rn, l, ln);
    node.right := newRight;
  }

  /** Writes through the pointer that a walk ended with. */
  method SetLink(p: Node, goLeft: bool, child: Node?)
    modifies p`left, p`right
    ensures p.left == (if goLeft then child else old(p.left))
    ensures p.right == (if goLeft then old(p.right) else child)
  {
    if goLeft {
      p.left := child;
    } else {
      p.right := child;
    }
  }

  lemma UpdateKeys<K, V>(m: map<K, V>, k: K, v: V)
    requires k in m
    ensures m[k := v].Keys == m.Keys
  {
  }

  lemma AddKeys(m: Bindings, i: map<string, Node>, k: string, e: Entry, n: Node)
    requires m.Keys == i.Keys
    ensures m[k := e].Keys == i[k := n].Keys
  {
  }

  class Store {
    var root: Node?

    ghost var shape: Shape
    ghost var nodes: set<Node>
    ghost var index: map<string, Node>    // folded name to node
    ghost var entries: Bindings           // the contents, as a value

    ghost predicate Indexed()
      reads this`shape, this`nodes, this`index
    {
      && Search(shape) && nodes == Nodes(shape) && index == MapOf(shape)
      && (forall k :: k in index ==> index[k] in nodes && Key(index[k]) == k)
    }

    ghost predicate Tree()
      reads this`root, this`shape, this`nodes, this`index, nodes`left, nodes`right
    {
      Indexed() && root == RootOf(shape) && Links(shape, nodes)
    }

    ghost predicate Contents()
      reads this`nodes, this`index, this`entries, nodes
    {
      && (forall n :: n in nodes ==> n.Valid())
      && (forall k :: k in index ==> k in entries && index[k] in nodes && entries[k] == EntryOf(index[k]))
    }

    ghost predicate Valid()
      reads this, nodes
    {
      Tree() && Contents() && entries.Keys == index.Keys
    }

    constructor ()
      ensures Valid() && entries == map[] && nodes == {}
    {
      root, shape, nodes, index, entries := null, Leaf, {}, map[], map[];
    }

    /** The walk from the root. */
    method Locate(name: string) returns (parent: Node?, goLeft: bool, node: Node?, ghost sub: Shape)
      requires Tree()
      ensures Reached(shape, Fold(name), parent, goLeft, sub)
      ensures node == null <==> Fold(name) !in index
      ensures node == null ==> sub == Leaf
      ensures node != null ==> sub.Branch? && sub.node == node && index[Fold(name)] == node && Key(node) == Fold(name)
    {
      parent, goLeft, node, sub := Walk(root, name, shape, nodes, index);
    }

    /** state_tree_find() */
    method Find(name: string) returns (node: Node?)
      requires Tree()
      ensures node == null <==> Fold(name) !in index
      ensures node != null ==> index[Fold(name)] == node
    {
      var _, _, n, _ := Locate(name);
      node := n;
    }

    /** state_getinfo(): the bounded encoding of the value, or nothing. */
    method GetInfo(name: string) returns (found: bool, val: string)
      requires Valid()
      ensures found <==> Fold(name) in entries
      ensures found ==> val == BoundedEncode(entries[Fold(name)].raw, ST_MAX_VALUE_LEN - 1)
    {
      var node := Find(name);
      if node == null { return false, ""; }
      assert node in nodes;
      return true, node.Val();
    }

    lemma Reindex()
      requires Search(shape) && nodes == Nodes(shape) && index == MapOf(shape)
      ensures Indexed()
    {
      forall k | k in index ensures index[k] in nodes && Key(index[k]) == k { MapOfKeys(shape, k); }
    }

    /** Puts a new node at the empty place where a walk ended. */
    method Attach(parent: Node?, goLeft: bool, n: Node)
      requires Tree() && Reached(shape, Key(n), parent, goLeft, Leaf)
      requires n !in nodes && n.left == null && n.right == null
      modifies this`root, this`shape, this`nodes, this`index, nodes`left, nodes`right
      ensures Tree() && nodes == old(nodes) + {n} && index == old(index)[Key(n) := n]
    {
      InsertedMap(shape, Key(n), parent, goLeft, n);
      WriteNew(parent, goLeft, n);
      shape := Inserted(shape, Key(n), parent, goLeft, n);
      nodes := nodes + {n};
      index := index[Key(n) := n];
      Reindex();
    }

    method WriteNew(parent: Node?, goLeft: bool, n: Node)
      requires Search(shape) && Links(shape, nodes) && root == RootOf(shape)
      requires Reached(shape, Key(n), parent, goLeft, Leaf)
      requires n !in nodes && n.left == null && n.right == null
      modifies this`root, nodes`left, nodes`right
      ensures Links(Inserted(shape, Key(n), parent, goLeft, n), nodes + {n})
      ensures root == RootOf(Inserted(shape, Key(n), parent, goLeft, n))
    {
      if parent == null {
        root := n;
      } else {
        HoleNodes(shape, Key(n), parent, goLeft, Leaf);
        SetLink(parent, goLeft, n);
        PlugIsLinked(shape, nodes, Key(n), parent, goLeft, Leaf, Branch(Leaf, n, Leaf), {n});
      }
    }

    /** state_setinfo() */
    method SetInfo(name: string, val: string) returns (changed: bool)
      requires Valid()
      modifies this, nodes
      ensures Valid() && fresh(nodes - old(nodes))
      ensures entries == AfterSet(old(entries), name, val)
      ensures var k, was := Fold(name), old(entries);
              && (changed <==> k !in was || (Immutable !in was[k].flags && Fold(was[k].raw) != Fold(val)))
              && entries - {k} == was - {k} && (!changed ==> entries == was)
              && (changed ==> k in entries && entries[k] == if k in was then was[k].(raw := val) else Entry(name, val, {}))
    {
      SetEntries(entries, name, val);
      hide Indexed, Links, RootOf, BoundedEncode, Reached, Fold, Key, Node.Valid;
      var parent, goLeft, node, sub := Locate(name);
      if node != null {
        IndexAlone(Fold(name));
        UpdateKeys(entries, Fold(name), entries[Fold(name)].(raw := val));
        changed := Update(Fold(name), node, val);
        TreeKept();
      } else {
        AddNew(parent, goLeft, name, val);
        changed := true;
      }
    }

    /** The end of state_setinfo(), for a name that is not there. */
    method AddNew(parent: Node?, goLeft: bool, name: string, val: string)
      requires Valid() && Reached(shape, Fold(name), parent, goLeft, Leaf)
      modifies this, nodes`left, nodes`right
      ensures Valid() && fresh(nodes - old(nodes))
      ensures entries == old(entries)[Fold(name) := Entry(name, val, {})]
    {
      hide Indexed, Links, RootOf, Node.Valid, Reached;
      var n := new Node(name, val);
      AddKeys(entries, index, Fold(name), Entry(name, val, {}), n);
      ghost var ns, i, e := nodes, index, entries;
      Attach(parent, goLeft, n);
      entries := entries[Fold(name) := EntryOf(n)];
      ContentsGrown(ns, i, e, Fold(name), n);
    }

    lemma ContentsGrown(ns: set<Node>, i: map<string, Node>, e: Bindings, k: string, n: Node)
      requires forall m :: m in ns ==> m.Valid()
      requires forall j :: j in i ==> j in e && i[j] in ns && e[j] == EntryOf(i[j])
      requires n.Valid() && nodes == ns + {n} && index == i[k := n] && entries == e[k := EntryOf(n)]
      ensures Contents()
    {
      hide Node.Valid;
    }

    /** The branch of state_setinfo() for a name that is already there. */
    method Update(ghost k: string, node: Node, val: string) returns (changed: bool)
      requires Contents() && Alone(k) && index[k] == node
      modifies node`raw, node`rawsize, node`safe, node`safesize, node`valIsSafe, this`entries
      ensures Contents()
      ensures changed <==> !(Fold(old(entries)[k].raw) == Fold(val) || Immutable in old(entries)[k].flags)
      ensures entries == if changed then old(entries)[k := old(entries)[k].(raw := val)] else old(entries)
    {
      if Fold(node.raw) == Fold(val) { return false; }
      if Immutable in node.flags { return false; }
      SetNode(k, node, val);
      changed := true;
    }

    /** The tree does not depend on values and flags. */
    twostate lemma TreeKept()
      requires old(Tree())
      requires root == old(root) && shape == old(shape) && nodes == old(nodes) && index == old(index)
      requires forall n :: n in old(nodes) ==> n.left == old(n.left) && n.right == old(n.right)
      ensures Tree()
    {
    }

    lemma IndexAlone(k: string)
      requires Indexed() && k in index
      ensures Alone(k)
    {
    }

    ghost predicate Alone(k: string)
      reads this`index
    {
      k in index && forall j :: j in index && j != k ==> index[j] != index[k]
    }

    method SetNode(ghost k: string, node: Node, val: string)
      requires Contents() && Alone(k) && index[k] == node
      modifies node`raw, node`rawsize, node`safe, node`safesize, node`valIsSafe, this`entries
      ensures Contents() && entries == old(entries)[k := old(entries)[k].(raw := val)]
    {
      hide BoundedEncode;
      node.SetRaw(val);
      entries := entries[k := entries[k].(raw := val)];
    }

    method SetNodeFlags(ghost k: string, node: Node, flags: set<Flag>)
      requires Contents() && Alone(k) && index[k] == node
      modifies node`flags, this`entries
      ensures Contents() && entries == old(entries)[k := old(entries)[k].(flags := flags)]
    {
      hide BoundedEncode;
      node.flags := flags;
      entries := entries[k := entries[k].(flags := flags)];
    }

    /** dstate_setflags() of the driver core */
    method SetFlags(name: string, flags: set<Flag>)
      requires Valid()
      modifies this`entries, nodes`flags
      ensures Valid() && entries == AfterSetFlags(old(entries), name, flags)
      ensures var k, was := Fold(name), old(entries);
              && entries - {k} == was - {k} && (k in entries <==> k in was)
              && (k in was ==> entries[k] == if Immutable in was[k].flags then was[k] else was[k].(flags := flags))
    {
      hide Indexed, Links, RootOf, BoundedEncode;
      var node := Find(name);
      if node == null { return; }
      if Immutable in node.flags { return; }
      IndexAlone(Fold(name));
      UpdateKeys(entries, Fold(name), entries[Fold(name)].(flags := flags));
      SetNodeFlags(Fold(name), node, flags);
      TreeKept();
    }

    /** The two subtrees below the node to be deleted. */
    lemma SubtreeLinks(k: string, parent: Node?, goLeft: bool, sub: Shape, ln: set<Node>, rn: set<Node>)
      requires Tree() && Reached(shape, k, parent, goLeft, sub) && sub.Branch?
      requires ln == Nodes(sub.left) && rn == Nodes(sub.right)
      ensures Links(sub.left, ln) && Links(sub.right, rn)
      ensures sub.node in nodes && ln <= nodes && rn <= nodes
      ensures sub.node.left == RootOf(sub.left) && sub.node.right == RootOf(sub.right)
    {
      ReachedFacts(shape, k, parent, goLeft, sub);
      assert sub.node in Nodes(sub);
      ChildLinks(shape, k, parent, goLeft, sub, sub.node);
      forall n | n in ln + rn ensures n in nodes { assert n in Nodes(sub); }
      forall n | n in ln ensures n.left == LeftOf(sub.left, n) && n.right == RightOf(sub.left, n) {
        ChildLinks(shape, k, parent, goLeft, sub, n);
      }
      forall n | n in rn ensures n.left == LeftOf(sub.right, n) && n.right == RightOf(sub.right, n) {
        ChildLinks(shape, k, parent, goLeft, sub, n);
      }
    }

    /** The order of the two subtrees, and that the node is in neither. */
    lemma SubtreeOrder(k: string, parent: Node?, goLeft: bool, sub: Shape)
      requires Search(shape) && Reached(shape, k, parent, goLeft, sub) && sub.Branch?
      ensures Search(sub.left) && Search(sub.right) && AllLess(sub.left, sub.right)
      ensures sub.node !in Nodes(sub.left) && sub.node !in Nodes(sub.right)
    {
      ReachedFacts(shape, k, parent, goLeft, sub);
      ChildrenOrdered(sub);
      SidesApart(sub, sub.node);
    }

    /** state_delinfo(), from the node it found. */
    method Remove(ghost k: string, parent: Node?, goLeft: bool, node: Node, ghost sub: Shape)
      requires Tree() && Reached(shape, k, parent, goLeft, sub) && sub.Branch? && sub.node == node && Key(node) == k
      modifies this`root, this`shape, this`nodes, this`index, nodes`left, nodes`right
      ensures Tree()
      ensures shape == Deleted(old(shape), k, parent, goLeft, sub)
      ensures nodes == old(nodes) - {node} && index == old(index) - {k}
    {
      hide Search, MapOf, Nodes, LeftOf, RightOf, Reached, Deleted;
      DeletedMap(shape, k, parent, goLeft, sub);
      DeletedNodes(shape, k, parent, goLeft, sub);
      RemoveLinks(k, parent, goLeft, node, sub);
      shape := Deleted(shape, k, parent, goLeft, sub);
      nodes := nodes - {node};
      index := index - {k};
      Reindex();
    }

    /** The pointer writes of a deletion. */
    method RemoveLinks(ghost k: string, parent: Node?, goLeft: bool, node: Node, ghost sub: Shape)
      requires Tree() && Reached(shape, k, parent, goLeft, sub) && sub.Branch? && sub.node == node && Key(node) == k
      modifies this`root, nodes`left, nodes`right
      ensures root == RootOf(Deleted(shape, k, parent, goLeft, sub))
      ensures Links(Deleted(shape, k, parent, goLeft, sub), nodes - {node})
    {
      hide Search, MapOf, LeftOf, RightOf, Hole, HangLeft, Compare, Fold;
      ghost var ln, rn := nodes * Nodes(sub.left), nodes * Nodes(sub.right);
      SubtreeOrder(k, parent, goLeft, sub);
      SubtreeNodes(k, parent, goLeft, sub, ln, rn);
      SubtreeLinks(k, parent, goLeft, sub, ln, rn);
      ghost var out, t := nodes - Nodes(sub), HangLeft(sub.right, sub.left);
      Partition(nodes, Nodes(sub), ln, node, rn, out);
      HangChildren(node, sub.left, ln, sub.right, rn);
      if parent == null {
        root := node.right;
      } else {
        HoleNodes(shape, k, parent, goLeft, sub);
        WriteBelow(k, parent, goLeft, node.right, shape, out, sub, t, rn + ln);
      }
    }

    /** state_delinfo() */
    method DelInfo(name: string) returns (deleted: bool)
      requires Valid()
      modifies this, nodes`left, nodes`right
      ensures Valid() && nodes <= old(nodes)
      ensures entries == AfterDelete(old(entries), name)
      ensures Fold(name) !in entries && entries == old(entries) - {Fold(name)}
      ensures deleted <==> Fold(name) in old(entries)
    {
      hide Indexed, Links, RootOf, Node.Valid, Reached, Fold, Key;
      var parent, goLeft, node, sub := Locate(name);
      if node == null {
        assert entries - {Fold(name)} == entries;
        return false;
      }
      IndexAlone(Fold(name));
      Remove(Fold(name), parent, goLeft, node, sub);
      entries := entries - {Fold(name)};
      deleted := true;
    }

    /** Any sequence of operations: the store agrees with the map throughout. */
    method Run(ops: seq<Op>)
      requires Valid()
      modifies this, nodes
      ensures Valid() && fresh(nodes - old(nodes))
      ensures entries == ApplyAll(old(entries), ops)
      ensures old(entries) == map[] ==> forall k :: StaysMutable(ops, k) ==> HoldsHistory(entries, ops, k)
    {
      hide Tree, Contents, HoldsHistory, StaysMutable;
      var i := 0;
      while i < |ops|
        invariant 0 <= i <= |ops|
        invariant Valid() && fresh(nodes - old(nodes))
        invariant ApplyAll(entries, ops[i..]) == ApplyAll(old(entries), ops)
      {
        assert ops[i..][1..] == ops[i + 1..];
        match ops[i] {
          case SetInfo(name, val) => var _ := SetInfo(name, val);
          case DelInfo(name) => var _ := DelInfo(name);
          case SetFlags(name, flags) => SetFlags(name, flags);
        }
        i := i + 1;
      }
      if old(entries) == map[] {
        forall k | StaysMutable(ops, k) ensures HoldsHistory(entries, ops, k) { StoredValue(ops, k); }
      }
    }

    lemma SubtreeNodes(k: string, parent: Node?, goLeft: bool, sub: Shape, ln: set<Node>, rn: set<Node>)
      requires Indexed() && Reached(shape, k, parent, goLeft, sub) && sub.Branch?
      requires ln == nodes * Nodes(sub.left) && rn == nodes * Nodes(sub.right)
      ensures ln == Nodes(sub.left) && rn == Nodes(sub.right)
    {
      ReachedFacts(shape, k, parent, goLeft, sub);
      forall n | n in Nodes(sub.left) + Nodes(sub.right) ensures n in nodes { assert n in Nodes(sub); }
    }
  }
}
