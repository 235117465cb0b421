/** The policy tree of the CARAT module: regions keyed by start address in a search tree,
    walked by pointer-chasing loops. The kernel's rebalancing is any change of shape that
    keeps the in-order sequence, and every shape is covered. */
module RegionTree {
  import opened Options

  type Addr = a: nat | a < 0x1_0000_0000_0000_0000

  /** A region [addr, addr+len) with its access flags. */
  datatype Region = Region(addr: Addr, len: Addr, protect: bv8) {
    /** Its end as the 64-bit addition computes it. */
    function End(): Addr { (addr + len) % 0x1_0000_0000_0000_0000 }

    predicate Contains(a: Addr) { addr <= a < End() }
  }

  datatype Tree = Leaf | Node(left: Tree, region: Region, right: Tree)

  function InOrder(t: Tree): seq<Region> {
    match t
    case Leaf => []
    case Node(l, r, h) => InOrder(l) + [r] + InOrder(h)
  }

  // ---- the reference: ordered sequences and a scan ------------------------------------

  ghost predicate Ordered(s: seq<Region>) {
    forall i, j :: 0 <= i < j < |s| ==> s[i].addr < s[j].addr
  }

  /** No region starts inside an earlier one. */
  ghost predicate Separate(s: seq<Region>) {
    forall i, j :: 0 <= i < j < |s| ==> !s[i].Contains(s[j].addr)
  }

  /** The first region of the sequence that contains the address. */
  function Scan(s: seq<Region>, a: Addr): (r: Option<Region>)
    ensures r.Some? ==> r.value in s && r.value.Contains(a)
    ensures r.None? ==> forall x :: x in s ==> !x.Contains(a)
  {
    if s == [] then None else if s[0].Contains(a) then Some(s[0]) else Scan(s[1..], a)
  }

  lemma {:induction false} ScanConcat(s: seq<Region>, t: seq<Region>, a: Addr)
    ensures Scan(s + t, a) == if Scan(s, a).Some? then Scan(s, a) else Scan(t, a)
  {
    if s == [] {
      assert s + t == t;
    } else {
      assert (s + t)[1..] == s[1..] + t;
      ScanConcat(s[1..], t, a);
    }
  }

  /** In separate regions at most one contains an address, so the scan finds the one. */
  lemma ScanIsUnique(s: seq<Region>, a: Addr, i: nat)
    requires Ordered(s) && Separate(s) && i < |s| && s[i].Contains(a)
    ensures Scan(s, a) == Some(s[i])
  {
    var r := Scan(s, a).value;
    var k :| 0 <= k < |s| && s[k] == r;
    if k < i {
      assert s[k].Contains(s[i].addr);
    } else if i < k {
      assert s[i].Contains(s[k].addr);
    }
  }

  lemma ScanNone(s: seq<Region>, a: Addr)
    requires forall i :: 0 <= i < |s| ==> !s[i].Contains(a)
    ensures Scan(s, a) == None
  {
  }

  // ---- lookup -------------------------------------------------------------------------

  /** The answer of the walk on a given tree. */
  function Walk(t: Tree, a: Addr): Option<Region> {
    match t
    case Leaf => None
    case Node(l, r, h) =>
      if a < r.addr then Walk(l, a) else if a >= r.End() then Walk(h, a) else Some(r)
  }

  lemma OrderedAround(s: seq<Region>, p: seq<Region>, x: Region, q: seq<Region>)
    requires Ordered(s) && s == p + [x] + q
    ensures x in s && Ordered(p) && Ordered(q)
    ensures forall y :: y in p ==> y.addr < x.addr
    ensures forall y :: y in q ==> x.addr < y.addr
  {
    assert s[|p|] == x;
    assert forall i :: 0 <= i < |p| ==> p[i] == s[i];
    assert forall i :: 0 <= i < |q| ==> q[i] == s[|p| + 1 + i];
  }

  lemma SeparateAround(s: seq<Region>, p: seq<Region>, x: Region, q: seq<Region>)
    requires Separate(s) && s == p + [x] + q
    ensures Separate(p) && Separate(q)
    ensures forall y :: y in p ==> !y.Contains(x.addr)
  {
    assert s[|p|] == x;
    assert forall i :: 0 <= i < |p| ==> p[i] == s[i];
    assert forall i :: 0 <= i < |q| ==> q[i] == s[|p| + 1 + i];
  }

  lemma {:induction false} WalkFinds(t: Tree, a: Addr)
    requires Ordered(InOrder(t)) && Separate(InOrder(t))
    ensures Walk(t, a) == Scan(InOrder(t), a)
  {
    hide Region.End, Ordered, Separate;
    if t.Node? {
      var l, r, h := InOrder(t.left), t.region, InOrder(t.right);
      OrderedAround(InOrder(t), l, r, h);
      SeparateAround(InOrder(t), l, r, h);
      WalkFinds(t.left, a);
      WalkFinds(t.right, a);
      ScanConcat(l + [r], h, a);
      ScanConcat(l, [r], a);
      if a < r.addr {
        ScanNone([r], a);
        ScanNone(h, a);
      } else {
        ScanNone(l, a);
      }
    }
  }

  /** A tree of the given in-order sequence with element k at its root. */
  function Rooted(s: seq<Region>, k: nat): (t: Tree)
    requires k < |s|
    ensures InOrder(t) == s
  {
    assert s == s[..k] + [s[k]] + s[k + 1..];
    Node(Chain(s[..k]), s[k], Chain(s[k + 1..]))
  }

  function Chain(s: seq<Region>): (t: Tree)
    ensures InOrder(t) == s
  {
    if s == [] then Leaf else Node(Leaf, s[0], Chain(s[1..]))
  }

  lemma {:induction false} WalkBelowAll(t: Tree, a: Addr)
    requires forall x :: x in InOrder(t) ==> a < x.addr
    ensures Walk(t, a) == None
  {
    if t.Node? { WalkBelowAll(t.left, a); }
  }

  /** With region j starting inside region i, the shape of the tree decides the answer. */
  lemma ShapeMatters(s: seq<Region>, i: nat, j: nat)
    requires Ordered(s) && i < j < |s| && s[i].Contains(s[j].addr)
    ensures Walk(Rooted(s, i), s[j].addr) != Walk(Rooted(s, j), s[j].addr)
  {
    hide Region.End, Chain;
    assert Walk(Rooted(s, i), s[j].addr) == Some(s[i]);
    assert s == s[..j] + [s[j]] + s[j + 1..];
    OrderedAround(s, s[..j], s[j], s[j + 1..]);
    WalkBelowAll(Chain(s[j + 1..]), s[j].addr);
  }

  /** Exactly when a lookup can be trusted: the walk agrees with the linear scan on every
      tree with this in-order sequence, whatever its shape, if and only if no region starts
      inside an earlier one. */
  lemma LookupAgreesIff(s: seq<Region>)
    requires Ordered(s)
    ensures (forall t: Tree, a: Addr :: InOrder(t) == s ==> Walk(t, a) == Scan(s, a)) <==> Separate(s)
  {
    hide Region.Contains, Walk, Scan, InOrder, Rooted;
    if Separate(s) {
      forall t: Tree, a: Addr | InOrder(t) == s ensures Walk(t, a) == Scan(s, a) {
        WalkFinds(t, a);
      }
    } else {
      var i, j :| 0 <= i < j < |s| && s[i].Contains(s[j].addr);
      ShapeMatters(s, i, j);
    }
  }

  /** The end of a region as computed is its mathematical end exactly when the region does
      not reach the top of the address space; one that does contains nothing. */
  lemma ContainsIff(r: Region)
    ensures (forall a: Addr :: r.Contains(a) <==> r.addr <= a < r.addr + r.len)
       <==> r.len == 0 || r.addr + r.len < 0x1_0000_0000_0000_0000
    ensures r.addr + r.len >= 0x1_0000_0000_0000_0000 ==> forall a: Addr :: !r.Contains(a)
  {
    if r.addr + r.len >= 0x1_0000_0000_0000_0000 {
      assert r.End() == r.addr + r.len - 0x1_0000_0000_0000_0000;
      assert !r.Contains(r.addr);
    }
  }

  // ---- protections --------------------------------------------------------------------

  predicate CheckProtections(access: bv32, flags: bv8) { access & flags as bv32 == access }

  /** No requested bit is missing from the granted ones. */
  predicate Covers(flags: bv8, access: bv32) { access & !(flags as bv32) == 0 }

  lemma CheckProtectionsIff(access: bv32, flags: bv8)
    ensures CheckProtections(access, flags) <==> Covers(flags, access)
    ensures CheckProtections(1, flags) <==> flags & 1 != 0
    ensures CheckProtections(2, flags) <==> flags & 2 != 0
  {
  }

  // ---- insertion ----------------------------------------------------------------------

  /** Where the insertion loop came from: the node it left and the other subtree. */
  datatype Crumb = WentLeft(region: Region, right: Tree) | WentRight(left: Tree, region: Region)

  function Plug(path: seq<Crumb>, t: Tree): Tree {
    if path == [] then t else
      var c := path[|path| - 1];
      Plug(path[..|path| - 1], if c.WentLeft? then Node(t, c.region, c.right) else Node(c.left, c.region, t))
  }

  function Before(path: seq<Crumb>): seq<Region> {
    if path == [] then [] else
      var c := path[|path| - 1];
      Before(path[..|path| - 1]) + if c.WentLeft? then [] else InOrder(c.left) + [c.region]
  }

  function After(path: seq<Crumb>): seq<Region> {
    if path == [] then [] else
      var c := path[|path| - 1];
      (if c.WentLeft? then [c.region] + InOrder(c.right) else []) + After(path[..|path| - 1])
  }

  lemma {:induction false} PlugInOrder(path: seq<Crumb>, t: Tree)
    ensures InOrder(Plug(path, t)) == Before(path) + InOrder(t) + After(path)
  {
    if path != [] {
      var c := path[|path| - 1];
      PlugInOrder(path[..|path| - 1], if c.WentLeft? then Node(t, c.region, c.right) else Node(c.left, c.region, t));
    }
  }

  /** One step down the tree, recorded in the path. */
  lemma StepDown(path: seq<Crumb>, c: Crumb, n: Tree)
    ensures Plug(path + [c], n) ==
      Plug(path, if c.WentLeft? then Node(n, c.region, c.right) else Node(c.left, c.region, n))
    ensures Before(path + [c]) == Before(path) + if c.WentLeft? then [] else InOrder(c.left) + [c.region]
    ensures After(path + [c]) == (if c.WentLeft? then [c.region] + InOrder(c.right) else []) + After(path)
  {
    assert (path + [c])[..|path|] == path;
  }

  /** The descent for `r` has come down `path` to the subtree `n` of a tree holding `s`. */
  ghost predicate OnPath(s: seq<Region>, path: seq<Crumb>, n: Tree, r: Region) {
    && s == Before(path) + InOrder(n) + After(path)
    && (forall x :: x in Before(path) ==> x.addr < r.addr)
    && (forall x :: x in After(path) ==> r.addr < x.addr)
  }

  lemma EmptyPath(t: Tree, r: Region)
    ensures Plug([], t) == t && OnPath(InOrder(t), [], t, r)
  {
  }

  lemma Around(s: seq<Region>, path: seq<Crumb>, n: Tree, r: Region)
    requires Ordered(s) && n.Node? && OnPath(s, path, n, r)
    ensures n.region in s
    ensures forall x :: x in InOrder(n.left) ==> x.addr < n.region.addr
    ensures forall x :: x in InOrder(n.right) ==> n.region.addr < x.addr
  {
    hide Ordered, Before, After;
    var l, h := InOrder(n.left), InOrder(n.right);
    assert s == (Before(path) + l) + [n.region] + (h + After(path));
    OrderedAround(s, Before(path) + l, n.region, h + After(path));
  }

  lemma PathOrder(b: seq<Region>, l: seq<Region>, x: Region, h: seq<Region>, a: seq<Region>)
    ensures b + (l + [x] + h) + a == b + l + (([x] + h) + a)
    ensures b + (l + [x] + h) + a == (b + (l + [x])) + h + a
  {
  }

  lemma DescendLeft(s: seq<Region>, path: seq<Crumb>, n: Tree, r: Region)
    requires Ordered(s) && n.Node? && OnPath(s, path, n, r) && r.addr < n.region.addr
    ensures var p := path + [WentLeft(n.region, n.right)];
      Plug(p, n.left) == Plug(path, n) && OnPath(s, p, n.left, r)
  {
    hide Ordered, Before, After;
    Around(s, path, n, r);
    StepDown(path, WentLeft(n.region, n.right), n.left);
    var l, h := InOrder(n.left), InOrder(n.right);
    PathOrder(Before(path), l, n.region, h, After(path));
  }

  lemma DescendRight(s: seq<Region>, path: seq<Crumb>, n: Tree, r: Region)
    requires Ordered(s) && n.Node? && OnPath(s, path, n, r) && n.region.addr < r.addr
    ensures var p := path + [WentRight(n.left, n.region)];
      Plug(p, n.right) == Plug(path, n) && OnPath(s, p, n.right, r)
  {
    hide Ordered, Before, After;
    Around(s, path, n, r);
    StepDown(path, WentRight(n.left, n.region), n.right);
    var l, h := InOrder(n.left), InOrder(n.right);
    PathOrder(Before(path), l, n.region, h, After(path));
  }

  /** Linking `r` where the descent ended. */
  lemma LinkInOrder(s: seq<Region>, path: seq<Crumb>, r: Region)
    requires Ordered(s) && OnPath(s, path, Leaf, r)
    ensures var s' := InOrder(Plug(path, Node(Leaf, r, Leaf)));
      Ordered(s') && InsertedAt(s, r, s', |Before(path)|)
    ensures forall x :: x in s ==> x.addr != r.addr
  {
    hide Ordered;
    assert s == Before(path) + After(path);
    PlugInOrder(path, Node(Leaf, r, Leaf));
    assert InOrder(Node(Leaf, r, Leaf)) == [r];
    InsertsInOrder(Before(path), r, After(path));
  }

  /** `r` put at its place in an ordered sequence. */
  ghost predicate InsertedAt(s: seq<Region>, r: Region, s': seq<Region>, k: nat) {
    k <= |s| && s' == s[..k] + [r] + s[k..]
  }

  lemma {:induction false} InsertsInOrder(before: seq<Region>, r: Region, after: seq<Region>)
    requires Ordered(before + after)
    requires forall x :: x in before ==> x.addr < r.addr
    requires forall x :: x in after ==> r.addr < x.addr
    ensures Ordered(before + [r] + after)
    ensures InsertedAt(before + after, r, before + [r] + after, |before|)
  {
    var s, s' := before + after, before + [r] + after;
    assert s[..|before|] == before && s[|before|..] == after;
    forall i, j | 0 <= i < j < |s'| ensures s'[i].addr < s'[j].addr {
      if i != |before| && j != |before| {
        var p, q := if i < |before| then i else i - 1, if j < |before| then j else j - 1;
        assert s'[i] == s[p] && s'[j] == s[q];
      }
    }
  }

  // ---- erasing ------------------------------------------------------------------------

  function Join(l: Tree, h: Tree): (t: Tree)
    ensures InOrder(t) == InOrder(l) + InOrder(h)
  {
    match l
    case Leaf => h
    case Node(a, r, b) => Node(a, r, Join(b, h))
  }

  ghost predicate ErasedAt(s: seq<Region>, r: Region, s': seq<Region>, k: nat) {
    k < |s| && s[k] == r && s' == s[..k] + s[k + 1..]
  }

  lemma ErasedRoot(l: seq<Region>, r: Region, h: seq<Region>)
    ensures ErasedAt(l + [r] + h, r, l + h, |l|)
  {
  }

  lemma ErasedLeft(l: seq<Region>, x: Region, h: seq<Region>, r: Region, l': seq<Region>)
    requires exists k: nat :: ErasedAt(l, r, l', k)
    ensures exists k: nat :: ErasedAt(l + [x] + h, r, l' + [x] + h, k)
  {
    var k: nat :| ErasedAt(l, r, l', k);
    var s := l + [x] + h;
    assert s[..k] == l[..k] && s[k + 1..] == l[k + 1..] + [x] + h;
    assert ErasedAt(s, r, l' + [x] + h, k);
  }

  lemma ErasedRight(l: seq<Region>, x: Region, h: seq<Region>, r: Region, h': seq<Region>)
    requires exists k: nat :: ErasedAt(h, r, h', k)
    ensures exists k: nat :: ErasedAt(l + [x] + h, r, l + [x] + h', k)
  {
    var k: nat :| ErasedAt(h, r, h', k);
    var s := l + [x] + h;
    assert s[..|l| + 1 + k] == l + [x] + h[..k] && s[|l| + 1 + k + 1..] == h[k + 1..];
    assert ErasedAt(s, r, l + [x] + h', |l| + 1 + k);
  }

  lemma WithoutOrdered(s: seq<Region>, k: nat)
    requires Ordered(s) && k < |s|
    ensures var s' := s[..k] + s[k + 1..]; Ordered(s') && (Separate(s) ==> Separate(s'))
  {
    hide Region.Contains;
    var s' := s[..k] + s[k + 1..];
    assert forall i :: 0 <= i < |s'| ==> s'[i] == s[if i < k then i else i + 1];
  }

  /** Removing region k changes the answers inside it and no others. */
  lemma ScanWithout(s: seq<Region>, k: nat, a: Addr)
    requires Ordered(s) && Separate(s) && k < |s|
    ensures Scan(s[..k] + s[k + 1..], a) == if s[k].Contains(a) then None else Scan(s, a)
  {
    hide Region.Contains, Ordered, Separate;
    WithoutOrdered(s, k);
    assert s == s[..k] + ([s[k]] + s[k + 1..]);
    ScanConcat(s[..k], [s[k]] + s[k + 1..], a);
    ScanConcat([s[k]], s[k + 1..], a);
    ScanConcat(s[..k], s[k + 1..], a);
    if s[k].Contains(a) {
      ScanIsUnique(s, a, k);
      OneContains(s, k, a);
      ScanNone(s[..k], a);
      ScanNone(s[k + 1..], a);
    }
  }

  lemma OneContains(s: seq<Region>, k: nat, a: Addr)
    requires Ordered(s) && Separate(s) && k < |s| && s[k].Contains(a)
    ensures forall i :: 0 <= i < |s| && i != k ==> !s[i].Contains(a)
  {
    forall i | 0 <= i < |s| && i != k ensures !s[i].Contains(a) {
      assert !s[if i < k then i else k].Contains(s[if i < k then k else i].addr);
    }
  }

  // ---- the policy ---------------------------------------------------------------------

  datatype Verdict = Allowed | Disallowed | NoPolicy

  class Policy {
    var root: Tree

    constructor ()
      ensures root == Leaf
    {
      root := Leaf;
    }

    method LookupRegion(a: Addr) returns (found: Option<Region>)
      ensures found == Walk(root, a)
      ensures Ordered(InOrder(root)) && Separate(InOrder(root)) ==> found == Scan(InOrder(root), a)
    {
      if Ordered(InOrder(root)) && Separate(InOrder(root)) { WalkFinds(root, a); }
      var n := root;
      while n.Node?
        invariant Walk(n, a) == Walk(root, a)
        decreases n
      {
        var data := n.region;
        var start, end := data.addr, data.End();
        if a < start {
          n := n.left;
        } else if a >= end {
          n := n.right;
        } else {
          return Some(data);
        }
      }
      return None;
    }

    /** The kernel's colour fix-up: any sequence of rotations, each at any node. */
    method Rebalance(t: Tree) returns (t': Tree)
      ensures InOrder(t') == InOrder(t)
    {
      t' := t;
      var rotations: int := *;
      while rotations > 0
        invariant InOrder(t') == InOrder(t)
      {
        t' := Rotate(t');
        rotations := rotations - 1;
      }
    }

    method Rotate(t: Tree) returns (t': Tree)
      ensures InOrder(t') == InOrder(t)
      decreases t
    {
      if t.Leaf? { return t; }
      var l, r, h := t.left, t.region, t.right;
      var choice: int := *;
      if choice == 0 {
        l := Rotate(l);
        return Node(l, r, h);
      } else if choice == 1 {
        h := Rotate(h);
        return Node(l, r, h);
      } else if choice == 2 && h.Node? {
        return Node(Node(l, r, h.left), h.region, h.right);
      } else if choice == 3 && l.Node? {
        return Node(l.left, l.region, Node(l.right, r, h));
      }
      return t;
    }

    method InsertRegion(r: Region) returns (inserted: bool)
      requires Ordered(InOrder(root))
      modifies this
      ensures Ordered(InOrder(root))
      ensures inserted <==> forall x :: x in old(InOrder(root)) ==> x.addr != r.addr
      ensures !inserted ==> root == old(root)
      ensures inserted ==> exists k: nat :: InsertedAt(old(InOrder(root)), r, InOrder(root), k)
    {
      hide Ordered, Plug, OnPath;
      var n, path := root, [];
      ghost var s := InOrder(root);
      EmptyPath(n, r);
      while n.Node?
        invariant root == old(root) && Plug(path, n) == root && OnPath(s, path, n, r)
        decreases n
      {
        var curr := n.region;
        Around(s, path, n, r);
        if curr.addr > r.addr {
          DescendLeft(s, path, n, r);
          path, n := path + [WentLeft(curr, n.right)], n.left;
        } else if curr.addr < r.addr {
          DescendRight(s, path, n, r);
          path, n := path + [WentRight(n.left, curr)], n.right;
        } else {
          return false;
        }
      }
      LinkInOrder(s, path, r);
      root := Rebalance(Plug(path, Node(Leaf, r, Leaf)));
      return true;
    }

    /** The kernel's unlink of one node. */
    method RbErase(t: Tree, r: Region) returns (t': Tree)
      requires r in InOrder(t) && Ordered(InOrder(t))
      ensures exists k: nat :: ErasedAt(InOrder(t), r, InOrder(t'), k)
      decreases t
    {
      hide Ordered, ErasedAt;
      var l, h := t.left, t.right;
      OrderedAround(InOrder(t), InOrder(l), t.region, InOrder(h));
      if r == t.region {
        t' := Join(l, h);
        ErasedRoot(InOrder(l), r, InOrder(h));
        assert ErasedAt(InOrder(t), r, InOrder(t'), |InOrder(l)|);
      } else if r.addr < t.region.addr {
        var l' := RbErase(l, r);
        t' := Node(l', t.region, h);
        ErasedLeft(InOrder(l), t.region, InOrder(h), r, InOrder(l'));
        assert InOrder(t') == InOrder(l') + [t.region] + InOrder(h);
      } else {
        var h' := RbErase(h, r);
        t' := Node(l, t.region, h');
        ErasedRight(InOrder(l), t.region, InOrder(h), r, InOrder(h'));
        assert InOrder(t') == InOrder(l) + [t.region] + InOrder(h');
      }
    }

    /** Deletes the region a lookup of `a` finds. In a trustworthy tree every address outside
        that region is then answered as before, and no address inside it has a region. */
    method DeleteRegion(a: Addr) returns (deleted: bool)
      requires Ordered(InOrder(root))
      modifies this
      ensures Ordered(InOrder(root))
      ensures deleted <==> old(Walk(root, a)).Some?
      ensures !deleted ==> root == old(root)
      ensures deleted ==> exists k: nat :: ErasedAt(old(InOrder(root)), old(Walk(root, a)).value, InOrder(root), k)
      ensures deleted && Separate(old(InOrder(root))) ==>
        var gone := old(Walk(root, a)).value;
        gone.Contains(a) && Separate(InOrder(root)) &&
        forall b: Addr :: Walk(root, b) == (if gone.Contains(b) then None else Walk(old(root), b))
    {
      hide Region.Contains, Ordered, Separate, Walk;
      var found := LookupRegion(a);
      if found == None { return false; }
      ghost var s, t := InOrder(root), root;
      WalkMember(root, a);
      root := RbErase(root, found.value);
      root := Rebalance(root);
      ghost var k: nat :| ErasedAt(s, found.value, InOrder(root), k);
      WithoutOrdered(s, k);
      if Separate(s) {
        forall b: Addr ensures Walk(root, b) == if found.value.Contains(b) then None else Walk(t, b) {
          ScanWithout(s, k, b);
          WalkFinds(t, b);
          WalkFinds(root, b);
        }
      }
      return true;
    }

    /** Loads a policy list: of several entries with one start address the first wins. */
    method ListToTree(list: seq<Region>)
      requires Ordered(InOrder(root))
      modifies this
      ensures Ordered(InOrder(root))
      ensures old(root) == Leaf ==> forall r :: r in InOrder(root) <==> FirstOfItsStart(list, r)
    {
      var i := 0;
      while i < |list|
        invariant i <= |list| && Ordered(InOrder(root))
        invariant old(root) == Leaf ==> forall r :: r in InOrder(root) <==> FirstOfItsStart(list[..i], r)
      {
        ghost var s := InOrder(root);
        var inserted := InsertRegion(list[i]);
        InsertedMembers(s, list[i], InOrder(root), inserted);
        if old(root) == Leaf {
          forall r
            ensures FirstOfItsStart(list[..i + 1], r) <==> FirstOfItsStart(list[..i], r) || (inserted && r == list[i])
          {
            FirstExtends(list, i, r, inserted, s);
          }
        }
        i := i + 1;
      }
      assert list[..|list|] == list;
    }

    /** The guard called before a memory access. It only reports: it returns in every case
        and changes nothing. */
    method TexasGuard(ptr: Addr, flags: bv32) returns (v: Verdict)
      ensures v == match Walk(root, ptr)
        case None => NoPolicy
        case Some(r) => if Covers(r.protect, flags) then Allowed else Disallowed
      ensures Ordered(InOrder(root)) && Separate(InOrder(root)) ==>
        && (v == NoPolicy <==> forall r :: r in InOrder(root) ==> !r.Contains(ptr))
        && forall r :: r in InOrder(root) && r.Contains(ptr) ==>
             v == if Covers(r.protect, flags) then Allowed else Disallowed
    {
      hide CheckProtections, Covers, Region.End, Ordered, Separate;
      var found := LookupRegion(ptr);
      ghost var s := InOrder(root);
      if Ordered(s) && Separate(s) {
        forall r | r in s && r.Contains(ptr) ensures found == Some(r) {
          var i :| 0 <= i < |s| && s[i] == r;
          ScanIsUnique(s, ptr, i);
        }
      }
      if found == None { return NoPolicy; }
      CheckProtectionsIff(flags, found.value.protect);
      return if CheckProtections(flags, found.value.protect) then Allowed else Disallowed;
    }
  }

  lemma {:induction false} WalkMember(t: Tree, a: Addr)
    ensures Walk(t, a).Some? ==> Walk(t, a).value in InOrder(t) && Walk(t, a).value.Contains(a)
  {
    if t.Node? {
      WalkMember(t.left, a);
      WalkMember(t.right, a);
    }
  }

  /** `r` is in the list with no earlier entry of the same start. */
  ghost predicate FirstOfItsStart(list: seq<Region>, r: Region) {
    exists i :: 0 <= i < |list| && list[i] == r && forall j :: 0 <= j < i ==> list[j].addr != r.addr
  }

  lemma InsertedMembers(s: seq<Region>, r: Region, s': seq<Region>, inserted: bool)
    requires if inserted then exists k: nat :: InsertedAt(s, r, s', k) else s' == s
    ensures forall x :: x in s' <==> x in s || (inserted && x == r)
  {
    if inserted {
      var k: nat :| InsertedAt(s, r, s', k);
      assert s == s[..k] + s[k..];
    }
  }

  lemma FirstExtends(list: seq<Region>, i: nat, r: Region, inserted: bool, s: seq<Region>)
    requires i < |list|
    requires forall x :: x in s <==> FirstOfItsStart(list[..i], x)
    requires inserted <==> forall x :: x in s ==> x.addr != list[i].addr
    ensures FirstOfItsStart(list[..i + 1], r) <==> FirstOfItsStart(list[..i], r) || (inserted && r == list[i])
  {
    var l, l' := list[..i], list[..i + 1];
    assert forall j :: 0 <= j < i ==> l'[j] == l[j];
    if FirstOfItsStart(l, r) {
      var k :| 0 <= k < |l| && l[k] == r && forall j :: 0 <= j < k ==> l[j].addr != r.addr;
      assert l'[k] == r;
    }
    if FirstOfItsStart(l', r) && !FirstOfItsStart(l, r) {
      assert r == list[i];
    }
    if r == list[i] && !inserted {
      var x :| x in s && x.addr == r.addr;
      var k :| 0 <= k < |l| && l[k] == x && forall j :: 0 <= j < k ==> l[j].addr != x.addr;
      assert l'[k].addr == r.addr;
    }
    if r == list[i] && inserted {
      forall j | 0 <= j < i ensures l'[j].addr != r.addr {
        if l[j].addr == r.addr { EarliestExists(l, j); }
      }
      assert l'[i] == r;
    }
  }

  /** Some entry with the start of entry j is the first of its start. */
  lemma {:induction false} EarliestExists(list: seq<Region>, j: nat)
    requires j < |list|
    ensures exists x: Region :: x.addr == list[j].addr && FirstOfItsStart(list, x)
    decreases j
  {
    if i :| 0 <= i < j && list[i].addr == list[j].addr {
      EarliestExists(list, i);
    } else {
      assert FirstOfItsStart(list, list[j]);
    }
  }
}
