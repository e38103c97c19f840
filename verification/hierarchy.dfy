/**
 * The hierarchy walk of LefWriteAll. All defs start unmarked; lefDefPushFunc
 * marks a def and pushes it on a stack before it enumerates the def's
 * children, and it skips defs already marked and internal defs. Popping the
 * stack then drives macro output: every popped def is unmarked, and is
 * written unless it is the root and the top cell is not wanted. The pop order
 * is the reverse of the push (pre-)order.
 */
module Hierarchy {
  /** A cell def: its name, whether it is internal (CDINTERNAL), and the defs
      of its subcell uses, in enumeration order. */
  datatype Def = Def(name: string, internal: bool, children: seq<nat>)

  /** Every subcell use refers to a def of the table. */
  predicate WellFormed(defs: seq<Def>) {
    forall d, k :: 0 <= d < |defs| && 0 <= k < |defs[d].children| ==> defs[d].children[k] < |defs|
  }

  predicate NoDup(s: seq<nat>) {
    forall i, j :: 0 <= i < j < |s| ==> s[i] != s[j]
  }

  /** The stack of the walk. A def is marked (cd_client set) exactly when it
      is on the stack, so the marks are not kept separately. Each def is
      stacked once, and none is internal. */
  ghost predicate StackInv(defs: seq<Def>, s: seq<nat>) {
    && NoDup(s)
    && (forall i :: 0 <= i < |s| ==> s[i] < |defs| && !defs[s[i]].internal)
  }

  /** Every def on `s` but not on `before` has each non-internal child on `s`. */
  predicate ClosedOutside(defs: seq<Def>, s: seq<nat>, before: seq<nat>)
    requires WellFormed(defs) && forall i :: 0 <= i < |s| ==> s[i] < |defs|
  {
    forall x, k {:trigger defs[x].children[k]} :: x in s && x !in before && 0 <= k < |defs[x].children| ==>
      defs[defs[x].children[k]].internal || defs[x].children[k] in s
  }

  /** Every stack entry from position `from` on is a child of an entry below it. */
  predicate ParentsBefore(defs: seq<Def>, s: seq<nat>, from: nat) {
    forall j :: from <= j < |s| ==> exists i :: 0 <= i < j && s[i] < |defs| && s[j] in defs[s[i]].children
  }

  function Range(n: nat): (r: set<nat>)
    ensures forall i: nat :: i in r <==> i < n
  {
    if n == 0 then {} else Range(n - 1) + {n - 1}
  }

  /** The defs not marked yet. */
  function Unmarked(defs: seq<Def>, s: seq<nat>): set<nat> {
    Range(|defs|) - (set x | x in s)
  }

  lemma SubsetCard(a: set<nat>, b: set<nat>)
    requires a <= b
    ensures |a| <= |b|
  {
    assert b == a + (b - a);
  }

  /** Marking a def shrinks the unmarked set. */
  lemma MarkShrinks(defs: seq<Def>, s: seq<nat>, d: nat)
    requires d < |defs| && d !in s
    ensures |Unmarked(defs, s + [d])| < |Unmarked(defs, s)|
  {
    assert d in Unmarked(defs, s);
    assert Unmarked(defs, s + [d]) == Unmarked(defs, s) - {d};
  }

  /** Extending the stack never grows the unmarked set. */
  lemma ExtendShrinks(defs: seq<Def>, s: seq<nat>, r: seq<nat>)
    requires |s| <= |r| && r[..|s|] == s
    ensures |Unmarked(defs, r)| <= |Unmarked(defs, s)|
  {
    assert forall x :: x in s ==> x in r by {
      forall x | x in s ensures x in r {
        var i :| 0 <= i < |s| && s[i] == x;
        assert r[..|s|][i] == x;
      }
    }
    SubsetCard(Unmarked(defs, r), Unmarked(defs, s));
  }

  /** lefDefPushFunc for def `d` on stack `s`. */
  function Push(defs: seq<Def>, d: nat, s: seq<nat>): (r: seq<nat>)
    requires WellFormed(defs) && d < |defs| && StackInv(defs, s)
    ensures StackInv(defs, r)
    ensures |s| <= |r| && r[..|s|] == s
    ensures !defs[d].internal ==> d in r
    ensures |r| > |s| ==> r[|s|] == d
    decreases |Unmarked(defs, s)|, 0
  {
    if d in s || defs[d].internal then s
    else
      MarkShrinks(defs, s, d);
      PushOne(defs, s, d);
      var r := PushChildren(defs, d, 0, s + [d]);
      Extends(s, s + [d], r);
      r
  }

  lemma PushOne(defs: seq<Def>, s: seq<nat>, d: nat)
    requires StackInv(defs, s) && d < |defs| && d !in s && !defs[d].internal
    ensures StackInv(defs, s + [d]) && d in s + [d]
    ensures (s + [d])[..|s|] == s
  {
  }

  /** The DBCellEnum loop over the children of `p`, from the k-th on. */
  function PushChildren(defs: seq<Def>, p: nat, k: nat, s: seq<nat>): (r: seq<nat>)
    requires WellFormed(defs) && p < |defs| && k <= |defs[p].children| && StackInv(defs, s)
    requires p in s
    ensures StackInv(defs, r)
    ensures |s| <= |r| && r[..|s|] == s
    ensures ChildrenMarked(defs, p, k, r)
    decreases |Unmarked(defs, s)|, |defs[p].children| - k + 1
  {
    if k == |defs[p].children| then s
    else
      var r1 := Push(defs, defs[p].children[k], s);
      ExtendShrinks(defs, s, r1);
      assert p in r1 by {
        var i :| 0 <= i < |s| && s[i] == p;
        assert r1[..|s|][i] == p;
      }
      var r := PushChildren(defs, p, k + 1, r1);
      Extends(s, r1, r);
      ChildrenMarkedStep(defs, p, k, r1, r);
      r
  }

  /** Every non-internal child of `p` from the k-th on is on `r`. */
  predicate ChildrenMarked(defs: seq<Def>, p: nat, k: nat, r: seq<nat>)
    requires WellFormed(defs) && p < |defs|
  {
    forall j :: k <= j < |defs[p].children| ==> defs[defs[p].children[j]].internal || defs[p].children[j] in r
  }

  lemma ChildrenMarkedStep(defs: seq<Def>, p: nat, k: nat, r1: seq<nat>, r: seq<nat>)
    requires WellFormed(defs) && p < |defs| && k < |defs[p].children|
    requires defs[defs[p].children[k]].internal || defs[p].children[k] in r1
    requires forall x :: x in r1 ==> x in r
    requires ChildrenMarked(defs, p, k + 1, r)
    ensures ChildrenMarked(defs, p, k, r)
  {
  }

  /** Stack extension is transitive, and keeps membership. */
  lemma Extends(s: seq<nat>, r1: seq<nat>, r: seq<nat>)
    requires |s| <= |r1| && r1[..|s|] == s
    requires |r1| <= |r| && r[..|r1|] == r1
    ensures |s| <= |r| && r[..|s|] == s
    ensures forall x :: x in r1 ==> x in r
    ensures forall i :: 0 <= i < |r1| ==> r[i] == r1[i]
    ensures |r| > |s| && |r1| > |s| ==> r[|s|] == r1[|s|]
  {
    assert r[..|s|] == r[..|r1|][..|s|];
    forall x | x in r1 ensures x in r {
      var i :| 0 <= i < |r1| && r1[i] == x;
      assert r[..|r1|][i] == x;
    }
    forall i | 0 <= i < |r1| ensures r[i] == r1[i] {
      assert r[..|r1|][i] == r1[i];
    }
  }

  /** What a push adds is closed under non-internal children, and each entry
      it adds after `d` sits above one of its parents. */
  lemma {:induction false} PushFacts(defs: seq<Def>, d: nat, s: seq<nat>)
    requires WellFormed(defs) && d < |defs| && StackInv(defs, s)
    ensures ClosedOutside(defs, Push(defs, d, s), s)
    ensures ParentsBefore(defs, Push(defs, d, s), |s| + 1)
    decreases |Unmarked(defs, s)|, 0
  {
    if !(d in s || defs[d].internal) {
      MarkShrinks(defs, s, d);
      var s' := s + [d];
      var r := PushChildren(defs, d, 0, s');
      PushChildrenFacts(defs, d, 0, s');
      assert r == Push(defs, d, s);
      PushClosedStep(defs, d, s, r);
    }
  }

  /** Closing the def just pushed: its children are marked by the loop, every
      later def is closed by the recursive walk. */
  lemma PushClosedStep(defs: seq<Def>, d: nat, s: seq<nat>, r: seq<nat>)
    requires WellFormed(defs) && d < |defs| && StackInv(defs, r)
    requires ClosedOutside(defs, r, s + [d])
    requires ChildrenMarked(defs, d, 0, r)
    ensures ClosedOutside(defs, r, s)
  {
    forall x, k | x in r && x !in s && 0 <= k < |defs[x].children|
      ensures defs[defs[x].children[k]].internal || defs[x].children[k] in r
    {
      if x != d {
        assert x !in s + [d];
      }
    }
  }

  lemma {:induction false} PushChildrenFacts(defs: seq<Def>, p: nat, k: nat, s: seq<nat>)
    requires WellFormed(defs) && p < |defs| && k <= |defs[p].children| && StackInv(defs, s)
    requires p in s
    ensures ClosedOutside(defs, PushChildren(defs, p, k, s), s)
    ensures ParentsBefore(defs, PushChildren(defs, p, k, s), |s|)
    decreases |Unmarked(defs, s)|, |defs[p].children| - k + 1
  {
    if k < |defs[p].children| {
      var c := defs[p].children[k];
      var r1 := Push(defs, c, s);
      PushFacts(defs, c, s);
      ExtendShrinks(defs, s, r1);
      assert p in r1 by {
        var i :| 0 <= i < |s| && s[i] == p;
        assert r1[..|s|][i] == p;
      }
      var r := PushChildren(defs, p, k + 1, r1);
      PushChildrenFacts(defs, p, k + 1, r1);
      assert r == PushChildren(defs, p, k, s);
      Extends(s, r1, r);
      forall x, j | x in r && x !in s && 0 <= j < |defs[x].children|
        ensures defs[defs[x].children[j]].internal || defs[x].children[j] in r
      {
        if x in r1 {
          assert defs[defs[x].children[j]].internal || defs[x].children[j] in r1;
        }
      }
      PushChildrenStep(defs, p, s, r1, r);
    }
  }

  /** The ParentsBefore bookkeeping of one iteration of the children loop. */
  lemma PushChildrenStep(defs: seq<Def>, p: nat, s: seq<nat>, r1: seq<nat>, r: seq<nat>)
    requires p in s && p < |defs|
    requires |s| <= |r1| && r1[..|s|] == s
    requires |r1| <= |r| && r[..|r1|] == r1
    requires |r1| > |s| ==> r1[|s|] in defs[p].children
    requires ParentsBefore(defs, r1, |s| + 1)
    requires ParentsBefore(defs, r, |r1|)
    ensures ParentsBefore(defs, r, |s|)
  {
    Extends(s, r1, r);
    var ip :| 0 <= ip < |s| && s[ip] == p;
    assert r1[..|s|][ip] == p;
    forall j | |s| <= j < |r|
      ensures exists i :: 0 <= i < j && r[i] < |defs| && r[j] in defs[r[i]].children
    {
      if j == |s| {
        assert r[ip] == p;
      } else if j < |r1| {
        var i :| 0 <= i < j && r1[i] < |defs| && r1[j] in defs[r1[i]].children;
        assert r[i] == r1[i];
      }
    }
  }

  /** A chain of non-internal defs, each a child of the one before. */
  predicate IsPath(defs: seq<Def>, path: seq<nat>)
    requires WellFormed(defs)
  {
    && (forall i :: 0 <= i < |path| ==> path[i] < |defs| && !defs[path[i]].internal)
    && (forall i :: 0 < i < |path| ==> path[i] in defs[path[i - 1]].children)
  }

  /** Every non-internal def reachable from the root through non-internal
      defs is on the stack. */
  lemma {:induction false} ReachableIsPushed(defs: seq<Def>, path: seq<nat>, stack: seq<nat>)
    requires WellFormed(defs) && IsPath(defs, path) && |path| > 0
    requires forall i :: 0 <= i < |stack| ==> stack[i] < |defs|
    requires path[0] in stack && ClosedOutside(defs, stack, [])
    ensures path[|path| - 1] in stack
    decreases |path|
  {
    if |path| > 1 {
      var init := path[..|path| - 1];
      assert IsPath(defs, init);
      ReachableIsPushed(defs, init, stack);
      var x := path[|path| - 2];
      var k :| 0 <= k < |defs[x].children| && defs[x].children[k] == path[|path| - 1];
    }
  }

  /** The walk from the root with every def unmarked: the stack holds each
      def reachable through non-internal defs once, the root first, and every
      other entry above one of its parents. */
  lemma WalkFromRoot(defs: seq<Def>, root: nat)
    requires WellFormed(defs) && root < |defs|
    ensures var s := Push(defs, root, []);
      && StackInv(defs, s)
      && (defs[root].internal <==> s == [])
      && (!defs[root].internal ==> s[0] == root)
      && (forall x, k {:trigger defs[x].children[k]} :: x in s && 0 <= k < |defs[x].children| ==>
            defs[defs[x].children[k]].internal || defs[x].children[k] in s)
      && ParentsBefore(defs, s, 1)
  {
    PushFacts(defs, root, []);
  }

  /** The pop loop of LefWriteAll over `stack`, with `marks` the marked defs:
      each popped def is unmarked, and written unless it is the root and the
      top cell is not wanted. */
  method PopAll(stack: seq<nat>, marks: set<nat>, root: nat, writeTopCell: bool)
    returns (popped: seq<nat>, written: seq<nat>, marksAfter: set<nat>)
    requires NoDup(stack) && (forall x :: x in marks <==> x in stack)
    requires stack != [] ==> stack[0] == root
    ensures |popped| == |stack| && forall i :: 0 <= i < |stack| ==> popped[i] == stack[|stack| - 1 - i]
    ensures writeTopCell ==> written == popped
    ensures !writeTopCell && popped != [] ==> written == popped[..|popped| - 1] && popped[|popped| - 1] == root
    ensures forall x :: x in popped <==> x in stack
    ensures popped != [] ==> popped[|popped| - 1] == root
    ensures !writeTopCell ==> root !in written
    ensures marksAfter == {}
  {
    var m := marks;
    var n := |stack|;
    popped, written := [], [];
    while n > 0
      invariant 0 <= n <= |stack|
      invariant |popped| == |stack| - n
      invariant forall i :: 0 <= i < |popped| ==> popped[i] == stack[|stack| - 1 - i]
      invariant forall x :: x in m <==> x in stack[..n]
      invariant writeTopCell || n > 0 ==> written == popped
      invariant !writeTopCell && n == 0 && popped != [] ==> written == popped[..|popped| - 1]
      invariant popped == [] ==> written == []
    {
      var def := stack[n - 1];
      assert stack[..n] == stack[..n - 1] + [def];
      assert forall i :: 0 <= i < n - 1 ==> stack[i] != def;
      m := m - {def};
      if writeTopCell || def != root {
        written := written + [def];
      } else {
        assert stack[0] == root && stack[n - 1] == root;
      }
      popped := popped + [def];
      n := n - 1;
    }
    marksAfter := m;
    assert stack[..0] == [];
    forall x
      ensures x in popped <==> x in stack
    {
      if x in stack {
        var j :| 0 <= j < |stack| && stack[j] == x;
        assert popped[|stack| - 1 - j] == x;
      }
    }
    if !writeTopCell && popped != [] {
      assert forall i :: 0 <= i < |popped| - 1 ==> written[i] == stack[|stack| - 1 - i] && |stack| - 1 - i != 0;
    }
  }

  /** LefWriteAll: the walk from the root (whose shape WalkFromRoot states),
      then, when the output file opened, the pop loop. Returns the stack, the
      popped defs in order, the defs written, and the marks afterwards. When
      the file does not open the routine returns before the pop loop: nothing
      is popped or written, and every stacked def stays marked. */
  method WriteAll(defs: seq<Def>, root: nat, writeTopCell: bool, fileOpen: bool)
    returns (stack: seq<nat>, popped: seq<nat>, written: seq<nat>, marksAfter: set<nat>)
    requires WellFormed(defs) && root < |defs|
    ensures stack == Push(defs, root, [])
    ensures !fileOpen ==> popped == [] && written == [] && (forall x :: x in marksAfter <==> x in stack)
    ensures fileOpen ==> |popped| == |stack| && forall i :: 0 <= i < |stack| ==> popped[i] == stack[|stack| - 1 - i]
    ensures fileOpen ==> forall x :: x in popped <==> x in stack
    ensures popped != [] ==> popped[|popped| - 1] == root
    ensures fileOpen && writeTopCell ==> written == popped
    ensures fileOpen && !writeTopCell && popped != [] ==> written == popped[..|popped| - 1] && popped[|popped| - 1] == root
    ensures !writeTopCell ==> root !in written
    ensures fileOpen ==> marksAfter == {}
  {
    stack := Push(defs, root, []);
    var marks := set x | x in stack;
    if !fileOpen {
      return stack, [], [], marks;
    }
    popped, written, marksAfter := PopAll(stack, marks, root, writeTopCell);
  }

  /** `top` uses `shared` and then `parent`, which also uses `shared`. */
  const SharedExample: seq<Def> := [Def("top", false, [1, 2]), Def("shared", false, []), Def("parent", false, [1])]

  lemma SharedStep1()
    ensures WellFormed(SharedExample) && Push(SharedExample, 1, [0]) == [0, 1]
  {
    assert PushChildren(SharedExample, 1, 0, [0, 1]) == [0, 1];
  }

  lemma SharedStep2()
    ensures WellFormed(SharedExample) && PushChildren(SharedExample, 2, 0, [0, 1, 2]) == [0, 1, 2]
  {
    assert Push(SharedExample, 1, [0, 1, 2]) == [0, 1, 2];
    assert PushChildren(SharedExample, 2, 1, [0, 1, 2]) == [0, 1, 2];
  }

  lemma SharedStep3()
    ensures WellFormed(SharedExample) && Push(SharedExample, 2, [0, 1]) == [0, 1, 2]
  {
    SharedStep2();
    assert [0, 1] + [2] == [0, 1, 2];
  }

  /** Reverse pre-order is not leaf-first: the walk stacks top, shared,
      parent, so `parent` is popped, and written, before its own subcell
      `shared`. */
  lemma SharedChildPoppedLate()
    ensures WellFormed(SharedExample) && Push(SharedExample, 0, []) == [0, 1, 2]
  {
    SharedStep1();
    SharedStep3();
    assert PushChildren(SharedExample, 0, 2, [0, 1, 2]) == [0, 1, 2];
    assert PushChildren(SharedExample, 0, 1, [0, 1]) == [0, 1, 2];
    assert PushChildren(SharedExample, 0, 0, [0]) == [0, 1, 2];
    assert [] + [0] == [0];
  }
}
