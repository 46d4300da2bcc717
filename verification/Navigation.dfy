/** Focus navigation of components/ui_base/src/navigation.c over a tree of objects. Objects are
    numbered so that a parent precedes its children, as every finite tree can be. An object is
    navigable if it belongs to the default group. */
module Navigation {
  import opened Basics
  import Seqs

  datatype Tree = Tree(parent: seq<Option<nat>>, children: seq<seq<nat>>, group: seq<Option<int>>, dflt: Option<int>)

  /** Parent and child links agree and no child is listed twice. */
  ghost predicate ValidTree(t: Tree)
  {
    && |t.parent| == |t.children| == |t.group|
    && (forall p, i :: 0 <= p < |t.children| && 0 <= i < |t.children[p]| ==>
          p < t.children[p][i] < |t.parent| && t.parent[t.children[p][i]] == Some(p))
    && (forall c :: 0 <= c < |t.parent| && t.parent[c].Some? ==> t.parent[c].value < c && c in t.children[t.parent[c].value])
    && (forall p, i, j :: 0 <= p < |t.children| && 0 <= i < j < |t.children[p]| ==> t.children[p][i] != t.children[p][j])
  }

  predicate In(t: Tree, x: nat) { x < |t.parent| }

  predicate Navigable(t: Tree, x: nat)
    requires x < |t.group|
  {
    t.group[x] == t.dflt
  }

  // ----- The order in which focus moves -----

  /** The nearest navigable descendants of `root`, in pre-order: a navigable child hides what is below
      it. */
  function Stops(t: Tree, root: nat): seq<nat>
    requires ValidTree(t) && In(t, root)
    decreases |t.parent| - root, |t.children[root]| + 1
  {
    StopsFrom(t, root, 0)
  }

  /** The stops under the children of `root` from the `i`-th on. */
  function StopsFrom(t: Tree, root: nat, i: nat): seq<nat>
    requires ValidTree(t) && In(t, root) && i <= |t.children[root]|
    decreases |t.parent| - root, |t.children[root]| - i
  {
    if i == |t.children[root]| then []
    else
      var c := t.children[root][i];
      (if Navigable(t, c) then [c] else Stops(t, c)) + StopsFrom(t, root, i + 1)
  }

  /** The nearest navigable ancestor. */
  function Roof(t: Tree, x: nat): Option<nat>
    requires ValidTree(t) && In(t, x)
  {
    match t.parent[x]
    case None => None
    case Some(p) => if Navigable(t, p) then Some(p) else Roof(t, p)
  }

  /** Where `x` stands in a list without repetitions. */
  function Index(xs: seq<nat>, x: nat): (i: Option<nat>)
    ensures i.Some? ==> i.value < |xs| && xs[i.value] == x
    ensures i.None? ==> x !in xs
  {
    if xs == [] then None
    else if xs[0] == x then Some(0)
    else match Index(xs[1..], x)
      case None => None
      case Some(k) => Some(k + 1)
  }

  /** The stop after `x`, among those of its nearest navigable ancestor. */
  function Next(t: Tree, x: nat): Option<nat>
    requires ValidTree(t) && In(t, x)
  {
    match Roof(t, x)
    case None => None
    case Some(r) =>
      RoofAbove(t, x);
      After(Stops(t, r), x)
  }

  function Prev(t: Tree, x: nat): Option<nat>
    requires ValidTree(t) && In(t, x)
  {
    match Roof(t, x)
    case None => None
    case Some(r) =>
      RoofAbove(t, x);
      Before(Stops(t, r), x)
  }

  function After(xs: seq<nat>, x: nat): Option<nat>
  {
    match Index(xs, x)
    case None => None
    case Some(i) => if i + 1 < |xs| then Some(xs[i + 1]) else None
  }

  function Before(xs: seq<nat>, x: nat): Option<nat>
  {
    match Index(xs, x)
    case None => None
    case Some(i) => if i > 0 then Some(xs[i - 1]) else None
  }

  lemma {:induction false} RoofAbove(t: Tree, x: nat)
    requires ValidTree(t) && In(t, x)
    ensures Roof(t, x).Some? ==> Roof(t, x).value < x && Navigable(t, Roof(t, x).value)
  {
    match t.parent[x]
    case None =>
    case Some(p) =>
      if !Navigable(t, p) {
        RoofAbove(t, p);
      }
  }

  // ----- Facts about stops -----

  /** The child of `root` above `y`. */
  function Branch(t: Tree, root: nat, y: nat): Option<nat>
    requires ValidTree(t) && In(t, y)
  {
    match t.parent[y]
    case None => None
    case Some(p) => if p == root then Some(y) else Branch(t, root, p)
  }

  lemma {:induction false} BranchBelow(t: Tree, root: nat, c: nat, y: nat)
    requires ValidTree(t) && In(t, y) && In(t, c) && t.parent[c] == Some(root) && Branch(t, c, y).Some?
    ensures Branch(t, root, y) == Some(c) && c < y
    decreases y
  {
    var p := t.parent[y].value;
    if p != c {
      BranchBelow(t, root, c, p);
    }
  }

  /** Every stop is navigable, lies under the child it was reached through, and has `root`, or the roof
      of `root`, as its roof. */
  lemma {:induction false} StopFacts(t: Tree, root: nat, i: nat, y: nat)
    requires ValidTree(t) && In(t, root) && i <= |t.children[root]| && y in StopsFrom(t, root, i)
    ensures In(t, y) && Navigable(t, y)
    ensures Branch(t, root, y).Some? && exists k :: i <= k < |t.children[root]| && t.children[root][k] == Branch(t, root, y).value
    ensures Roof(t, y) == if Navigable(t, root) then Some(root) else Roof(t, root)
    decreases |t.parent| - root, |t.children[root]| - i
  {
    var c := t.children[root][i];
    if y in StopsFrom(t, root, i + 1) {
      StopFacts(t, root, i + 1, y);
    } else if !Navigable(t, c) {
      StopFacts(t, c, 0, y);
      BranchBelow(t, root, c, y);
      assert t.children[root][i] == c;
    } else {
      assert t.children[root][i] == c;
    }
  }

  predicate NoDuplicates(xs: seq<nat>) { forall i, j :: 0 <= i < j < |xs| ==> xs[i] != xs[j] }

  lemma {:induction false} StopsDistinct(t: Tree, root: nat, i: nat)
    requires ValidTree(t) && In(t, root) && i <= |t.children[root]|
    ensures NoDuplicates(StopsFrom(t, root, i))
    decreases |t.parent| - root, |t.children[root]| - i
  {
    if i < |t.children[root]| {
      var c := t.children[root][i];
      var here := if Navigable(t, c) then [c] else Stops(t, c);
      var rest := StopsFrom(t, root, i + 1);
      StopsDistinct(t, root, i + 1);
      if !Navigable(t, c) {
        StopsDistinct(t, c, 0);
      }
      forall a, b | 0 <= a < |here| && 0 <= b < |rest|
        ensures here[a] != rest[b]
      {
        StopFacts(t, root, i + 1, rest[b]);
        if !Navigable(t, c) {
          StopFacts(t, c, 0, here[a]);
          BranchBelow(t, root, c, here[a]);
        }
      }
    }
  }

  /** Below `root`, `x` comes before `y` in pre-order: through an earlier child, or through the same one
      and before `y` there, the child itself first. */
  ghost predicate Precedes(t: Tree, root: nat, x: nat, y: nat)
    requires ValidTree(t) && In(t, root) && In(t, x) && In(t, y)
    decreases |t.parent| - root
  {
    var a, b := Branch(t, root, x), Branch(t, root, y);
    && a.Some? && b.Some?
    && (if a == b then
          root < a.value < |t.parent| && y != a.value && (x == a.value || Precedes(t, a.value, x, y))
        else EarlierChild(t, root, a.value, b.value))
  }

  ghost predicate EarlierChild(t: Tree, root: nat, c: nat, d: nat)
    requires ValidTree(t) && In(t, root)
  {
    exists i, j :: 0 <= i < j < |t.children[root]| && t.children[root][i] == c && t.children[root][j] == d
  }

  /** The stops stand in pre-order. */
  lemma {:induction false} StopsInOrder(t: Tree, root: nat, i: nat, a: nat, b: nat)
    requires ValidTree(t) && In(t, root) && i <= |t.children[root]| && a < b < |StopsFrom(t, root, i)|
    ensures var x, y := StopsFrom(t, root, i)[a], StopsFrom(t, root, i)[b]; In(t, x) && In(t, y) && Precedes(t, root, x, y)
    decreases |t.parent| - root, |t.children[root]| - i
  {
    hide Precedes, Branch;
    var c := t.children[root][i];
    var here := if Navigable(t, c) then [c] else Stops(t, c);
    var rest := StopsFrom(t, root, i + 1);
    if a >= |here| {
      StopsInOrder(t, root, i + 1, a - |here|, b - |here|);
    } else if b < |here| {
      StopsInOrder(t, c, 0, a, b);
      InOrderThrough(t, root, c, here[a], here[b]);
    } else {
      InOrderAcross(t, root, i, here[a], rest[b - |here|]);
    }
  }

  lemma InOrderThrough(t: Tree, root: nat, c: nat, x: nat, y: nat)
    requires ValidTree(t) && In(t, root) && In(t, c) && t.parent[c] == Some(root) && x in Stops(t, c) && y in Stops(t, c)
    requires In(t, x) && In(t, y) && Precedes(t, c, x, y)
    ensures Precedes(t, root, x, y)
  {
    StopFacts(t, c, 0, x);
    StopFacts(t, c, 0, y);
    BranchBelow(t, root, c, x);
    BranchBelow(t, root, c, y);
    hide ValidTree, Stops, StopsFrom;
  }

  lemma InOrderAcross(t: Tree, root: nat, i: nat, x: nat, y: nat)
    requires ValidTree(t) && In(t, root) && i < |t.children[root]| && y in StopsFrom(t, root, i + 1)
    requires var c := t.children[root][i]; if Navigable(t, c) then x == c else x in Stops(t, c)
    ensures In(t, x) && In(t, y) && Precedes(t, root, x, y)
  {
    var c := t.children[root][i];
    StopFacts(t, root, i + 1, y);
    if !Navigable(t, c) {
      StopFacts(t, c, 0, x);
      BranchBelow(t, root, c, x);
    }
    assert Branch(t, root, x) == Some(c);
    assert EarlierChild(t, root, c, Branch(t, root, y).value);
  }

  /** A navigable child is a stop, and so is everything a non-navigable child shows. */
  lemma {:induction false} ChildStops(t: Tree, root: nat, i: nat, k: nat)
    requires ValidTree(t) && In(t, root) && i <= k < |t.children[root]|
    ensures var c := t.children[root][k];
            forall y :: y in (if Navigable(t, c) then [c] else Stops(t, c)) ==> y in StopsFrom(t, root, i)
    decreases k - i
  {
    if i < k {
      ChildStops(t, root, i + 1, k);
    }
  }

  /** A navigable object is a stop of its roof. */
  lemma {:induction false} StopOfRoof(t: Tree, x: nat, p: nat)
    requires ValidTree(t) && In(t, x) && In(t, p) && x in Stops(t, p)
    requires Navigable(t, p) || Roof(t, p).Some?
    ensures var r := if Navigable(t, p) then p else Roof(t, p).value; In(t, r) && x in Stops(t, r)
    decreases p
  {
    if !Navigable(t, p) {
      RoofAbove(t, p);
      var q := t.parent[p].value;
      var k :| 0 <= k < |t.children[q]| && t.children[q][k] == p;
      ChildStops(t, q, 0, k);
      StopOfRoof(t, x, q);
    }
  }

  lemma NavigableIsStop(t: Tree, x: nat)
    requires ValidTree(t) && In(t, x) && Navigable(t, x) && Roof(t, x).Some?
    ensures var r := Roof(t, x).value; In(t, r) && x in Stops(t, r)
  {
    RoofAbove(t, x);
    var p := t.parent[x].value;
    var k :| 0 <= k < |t.children[p]| && t.children[p][k] == x;
    ChildStops(t, p, 0, k);
    StopOfRoof(t, x, p);
  }

  lemma {:induction false} IndexUnique(xs: seq<nat>, i: nat)
    requires NoDuplicates(xs) && i < |xs|
    ensures Index(xs, xs[i]) == Some(i)
  {
    if i > 0 {
      IndexUnique(xs[1..], i - 1);
    }
  }

  // ----- What navigation promises -----

  /** Moving on and moving back undo each other. */
  lemma NextAndPrevUndo(t: Tree, x: nat, y: nat)
    requires ValidTree(t) && In(t, x) && In(t, y)
    ensures Next(t, x) == Some(y) <==> Prev(t, y) == Some(x)
  {
    if Next(t, x) == Some(y) {
      RoofAbove(t, x);
      Neighbours(t, Roof(t, x).value, Index(Stops(t, Roof(t, x).value), x).value);
    }
    if Prev(t, y) == Some(x) {
      RoofAbove(t, y);
      Neighbours(t, Roof(t, y).value, Index(Stops(t, Roof(t, y).value), y).value - 1);
    }
  }

  lemma Neighbours(t: Tree, r: nat, i: nat)
    requires ValidTree(t) && In(t, r) && Navigable(t, r) && i + 1 < |Stops(t, r)|
    ensures var x, y := Stops(t, r)[i], Stops(t, r)[i + 1];
            In(t, x) && In(t, y) && Next(t, x) == Some(y) && Prev(t, y) == Some(x)
  {
    var xs := Stops(t, r);
    StopsDistinct(t, r, 0);
    StopFacts(t, r, 0, xs[i]);
    StopFacts(t, r, 0, xs[i + 1]);
    IndexUnique(xs, i);
    IndexUnique(xs, i + 1);
  }

  /** From a navigable object under some roof, every other stop of that roof can be reached: the object
      is itself one of them, and an object that is not navigable leads nowhere. */
  lemma OnlyStopsMove(t: Tree, x: nat)
    requires ValidTree(t) && In(t, x)
    ensures Navigable(t, x) && Roof(t, x).Some? ==>
              In(t, Roof(t, x).value) && x in Stops(t, Roof(t, x).value)
    ensures !Navigable(t, x) ==> Next(t, x) == None && Prev(t, x) == None
  {
    RoofAbove(t, x);
    if Navigable(t, x) && Roof(t, x).Some? {
      NavigableIsStop(t, x);
    }
    if !Navigable(t, x) && Roof(t, x).Some? {
      var xs := Stops(t, Roof(t, x).value);
      if x in xs {
        StopFacts(t, Roof(t, x).value, 0, x);
      }
    }
  }

  // ----- The code -----

  /** find_first_focusable_child_dfs. */
  method FirstChild(t: Tree, root: nat) returns (r: Option<nat>)
    requires ValidTree(t) && In(t, root)
    ensures r == if t.dflt == None || Stops(t, root) == [] then None else Some(Stops(t, root)[0])
    decreases |t.parent| - root
  {
    if t.dflt == None {
      return None;
    }
    var i := 0;
    while i < |t.children[root]|
      invariant i <= |t.children[root]| && Stops(t, root) == StopsFrom(t, root, i)
    {
      var c := t.children[root][i];
      if Navigable(t, c) {
        return Some(c);
      }
      var found := FirstChild(t, c);
      if found.Some? {
        return found;
      }
      Seqs.Empty(StopsFrom(t, root, i + 1));
      i := i + 1;
    }
    r := None;
  }

  /** The first child of a navigable object has that object as its parent in navigation. */
  lemma ParentOfFirstChild(t: Tree, x: nat)
    requires ValidTree(t) && In(t, x) && Navigable(t, x) && Stops(t, x) != []
    ensures In(t, Stops(t, x)[0]) && Roof(t, Stops(t, x)[0]) == Some(x)
  {
    StopFacts(t, x, 0, Stops(t, x)[0]);
  }

  /** find_first_focusable_parent_dfs. */
  method FirstParent(t: Tree, x: nat) returns (r: Option<nat>)
    requires ValidTree(t) && In(t, x)
    ensures r == Roof(t, x)
  {
    var parent := t.parent[x];
    while parent.Some?
      invariant parent.Some? ==> parent.value < |t.parent|
      invariant Roof(t, x) == if parent.None? then None else if Navigable(t, parent.value) then parent else Roof(t, parent.value)
      decreases if parent.Some? then parent.value + 1 else 0
    {
      if Navigable(t, parent.value) {
        return parent;
      }
      parent := t.parent[parent.value];
    }
    r := None;
  }

  // ----- Scanning for a neighbour -----

  /** What a forward scan over the stops `xs` finds when the origin has been passed or not. */
  function Forward(xs: seq<nat>, x: nat, passed: bool): Option<nat>
  {
    if passed then (if xs == [] then None else Some(xs[0])) else After(xs, x)
  }

  /** What a backward scan finds when `last` was the latest stop before `xs`. */
  function Backward(xs: seq<nat>, x: nat, last: Option<nat>): Option<nat>
  {
    match Index(xs, x)
    case None => None
    case Some(i) => if i == 0 then last else Some(xs[i - 1])
  }

  function Latest(xs: seq<nat>, last: Option<nat>): Option<nat>
  {
    if xs == [] then last else Some(xs[|xs| - 1])
  }

  lemma {:induction false} IndexConcat(xs: seq<nat>, ys: seq<nat>, x: nat)
    ensures Index(xs + ys, x) == match Index(xs, x)
                                 case Some(i) => Some(i)
                                 case None => match Index(ys, x) case None => None case Some(j) => Some(|xs| + j)
  {
    if xs == [] {
      Seqs.Empty(ys);
    } else {
      assert (xs + ys)[1..] == xs[1..] + ys;
      IndexConcat(xs[1..], ys, x);
    }
  }

  /** A scan can be cut anywhere, its two accumulators carried across. */
  lemma ScanConcat(xs: seq<nat>, ys: seq<nat>, x: nat, last: Option<nat>, passed: bool)
    requires NoDuplicates(xs + ys)
    ensures Forward(xs + ys, x, passed) ==
            if Forward(xs, x, passed).Some? then Forward(xs, x, passed) else Forward(ys, x, passed || x in xs)
    ensures x !in xs ==> Backward(xs + ys, x, last) == Backward(ys, x, Latest(xs, last))
    ensures x in xs ==> x !in ys && Backward(xs + ys, x, last) == Backward(xs, x, last)
    ensures Latest(xs + ys, last) == Latest(ys, Latest(xs, last))
    ensures x in xs + ys <==> x in xs || x in ys
  {
    IndexConcat(xs, ys, x);
    if x in xs {
      var k := Index(xs, x).value;
      forall j | 0 <= j < |ys| ensures ys[j] != x {
        assert (xs + ys)[|xs| + j] == ys[j] && (xs + ys)[k] == x;
      }
    }
  }

  /** The scan of one more child, in the terms of the two parts it joins. */
  lemma Extend(t: Tree, root: nat, i: nat, pre: seq<nat>, here: seq<nat>)
    requires ValidTree(t) && In(t, root) && i < |t.children[root]| && Stops(t, root) == pre + StopsFrom(t, root, i)
    requires var c := t.children[root][i]; here == if Navigable(t, c) then [c] else Stops(t, c)
    ensures Stops(t, root) == pre + here + StopsFrom(t, root, i + 1)
    ensures NoDuplicates(pre + here) && NoDuplicates(pre + here + StopsFrom(t, root, i + 1))
  {
    var rest := StopsFrom(t, root, i + 1);
    Seqs.Assoc(pre, here, rest);
    StopsDistinct(t, root, 0);
    var all := pre + here + rest;
    forall j, k | 0 <= j < k < |pre + here| ensures (pre + here)[j] != (pre + here)[k] {
      assert all[j] == (pre + here)[j] && all[k] == (pre + here)[k];
    }
  }

  /** The result and accumulators of a scan over the stops `xs`. When a backward scan has met the origin
      with nothing before it, it goes on with `last` spoilt; the origin does not come again, so nothing
      is found. */
  predicate Outcome(xs: seq<nat>, x: nat, forward: bool, last0: Option<nat>, passed0: bool, r: Option<nat>, last: Option<nat>, passed: bool)
  {
    if forward then
      && r == Forward(xs, x, passed0)
      && (r.None? ==> passed == (passed0 || x in xs))
    else
      && r == Backward(xs, x, last0)
      && (x !in xs ==> last == Latest(xs, last0))
  }

  lemma NothingScanned(x: nat, forward: bool, last: Option<nat>, passed: bool)
    ensures Outcome([], x, forward, last, passed, None, last, passed)
  {
  }

  /** A scan that found nothing goes on from its accumulators. */
  lemma Chain(xs: seq<nat>, ys: seq<nat>, x: nat, forward: bool, last0: Option<nat>, passed0: bool,
              last1: Option<nat>, passed1: bool, r: Option<nat>, last: Option<nat>, passed: bool)
    requires NoDuplicates(xs + ys)
    requires Outcome(xs, x, forward, last0, passed0, None, last1, passed1) && Outcome(ys, x, forward, last1, passed1, r, last, passed)
    ensures Outcome(xs + ys, x, forward, last0, passed0, r, last, passed)
  {
    ScanConcat(xs, ys, x, last0, passed0);
  }

  /** A scan that has met what decides it need not go on. */
  lemma Decided(xs: seq<nat>, ys: seq<nat>, x: nat, forward: bool, last0: Option<nat>, passed0: bool,
                r: Option<nat>, last: Option<nat>, passed: bool)
    requires NoDuplicates(xs + ys) && Outcome(xs, x, forward, last0, passed0, r, last, passed)
    requires r.Some? || (!forward && x in xs)
    ensures Outcome(xs + ys, x, forward, last0, passed0, r, last, passed)
  {
    ScanConcat(xs, ys, x, last0, passed0);
  }

  /** One navigable child. */
  method Visit(c: nat, x: nat, forward: bool, last0: Option<nat>, passed0: bool)
    returns (stop: bool, r: Option<nat>, last: Option<nat>, passed: bool)
    ensures Outcome([c], x, forward, last0, passed0, r, last, passed)
    ensures stop <==> r.Some? || (!forward && x == c)
  {
    stop, r, last, passed := false, None, last0, passed0;
    assert Index([c], x) == if c == x then Some(0) else None;
    if forward {
      if passed {
        return true, Some(c), last, passed;
      }
      if c == x {
        passed := true;
      }
    } else {
      if c == x {
        return true, last, last, passed;
      }
      last := Some(c);
    }
  }

  /** scan_subtree_focus_sequence: the two out-parameters are handed in and out. */
  method Scan(t: Tree, root: nat, x: nat, last0: Option<nat>, passed0: bool, forward: bool)
    returns (r: Option<nat>, last: Option<nat>, passed: bool)
    requires ValidTree(t) && In(t, root)
    ensures Outcome(Stops(t, root), x, forward, last0, passed0, r, last, passed)
    decreases |t.parent| - root
  {
    hide Outcome, NoDuplicates;
    r, last, passed := None, last0, passed0;
    var i := 0;
    ghost var pre: seq<nat> := [];
    NothingScanned(x, forward, last0, passed0);
    while i < |t.children[root]|
      invariant i <= |t.children[root]| && Stops(t, root) == pre + StopsFrom(t, root, i)
      invariant r.None? && Outcome(pre, x, forward, last0, passed0, r, last, passed)
    {
      var c := t.children[root][i];
      ghost var here := if Navigable(t, c) then [c] else Stops(t, c);
      ghost var last1, passed1 := last, passed;
      Extend(t, root, i, pre, here);
      var stop;
      if Navigable(t, c) {
        stop, r, last, passed := Visit(c, x, forward, last, passed);
      } else {
        r, last, passed := Scan(t, c, x, last, passed, forward);
        stop := r.Some?;
      }
      Chain(pre, here, x, forward, last0, passed0, last1, passed1, r, last, passed);
      if stop {
        Decided(pre + here, StopsFrom(t, root, i + 1), x, forward, last0, passed0, r, last, passed);
        return;
      }
      pre := pre + here;
      i := i + 1;
    }
    Seqs.Empty(pre);
  }

  /** find_next_focusable_sibling. */
  method FindNext(t: Tree, x: nat) returns (r: Option<nat>)
    requires ValidTree(t) && In(t, x)
    ensures r == Next(t, x)
  {
    RoofAbove(t, x);
    var roof := FirstParent(t, x);
    if roof.None? {
      return None;
    }
    var last, passed;
    r, last, passed := Scan(t, roof.value, x, None, false, true);
  }

  /** find_prev_focusable_sibling. */
  method FindPrev(t: Tree, x: nat) returns (r: Option<nat>)
    requires ValidTree(t) && In(t, x)
    ensures r == Prev(t, x)
  {
    RoofAbove(t, x);
    var roof := FirstParent(t, x);
    if roof.None? {
      return None;
    }
    var last, passed;
    r, last, passed := Scan(t, roof.value, x, None, false, false);
  }
}
