/**
 * `build_nested_tree`: folds symbols sorted by start byte into a forest with
 * one stack of open symbols.  The forest is specified here on trees that keep
 * each symbol's byte span (`Nest`), and the stack algorithm that builds plain
 * `Symbol`s is proved to produce the image of that forest.
 */
module NestedTree {
  import opened Wrappers
  import opened Symbols

  /** A symbol before nesting, with the byte span of its node. */
  datatype FlatSymbol = FlatSymbol(
    name: string,
    kind: SymbolKind,
    startByte: nat,
    endByte: nat,
    range: Range)

  /** A symbol of the forest together with its byte span. */
  datatype Tree = Tree(flat: FlatSymbol, children: seq<Tree>)

  function Start(t: Tree): nat { t.flat.startByte }
  function End(t: Tree): nat { t.flat.endByte }

  function Leaf(f: FlatSymbol): Tree { Tree(f, []) }

  function Last<T>(s: seq<T>): T
    requires |s| > 0
  {
    s[|s| - 1]
  }

  function AddChild(p: Tree, c: Tree): Tree
  {
    p.(children := p.children + [c])
  }

  // ----- pre-order -----

  /** A tree's symbols in pre-order: the node, then its children's trees in order. */
  function Preorder(t: Tree): seq<FlatSymbol>
    decreases t, 1
  {
    [t.flat] + Flatten(t.children)
  }

  /** The pre-order of a forest: its trees' pre-orders, concatenated. */
  function Flatten(ts: seq<Tree>): seq<FlatSymbol>
    decreases ts, 0
  {
    if |ts| == 0 then [] else Flatten(ts[..|ts| - 1]) + Preorder(ts[|ts| - 1])
  }

  lemma PreorderAddChild(p: Tree, c: Tree)
    ensures Preorder(AddChild(p, c)) == Preorder(p) + Preorder(c)
  {
    var cs := p.children + [c];
    assert cs[..|cs| - 1] == p.children;
  }

  lemma FlattenAppend(ts: seq<Tree>, t: Tree)
    ensures Flatten(ts + [t]) == Flatten(ts) + Preorder(t)
  {
    assert (ts + [t])[..|ts|] == ts;
  }

  // ----- the stack algorithm, on trees -----

  /**
   * A completed tree goes to the new top of the stack as its last child, or
   * to the roots when the stack is empty.
   */
  function Attach(stack: seq<Tree>, roots: seq<Tree>, t: Tree): (r: (seq<Tree>, seq<Tree>))
    ensures |r.0| == |stack|
  {
    if |stack| == 0 then ([], roots + [t])
    else (stack[..|stack| - 1] + [AddChild(Last(stack), t)], roots)
  }

  /** Pops and attaches every open tree whose end byte is at or before `start`. */
  function PopClosed(stack: seq<Tree>, roots: seq<Tree>, start: nat): (r: (seq<Tree>, seq<Tree>))
    ensures |r.0| <= |stack|
    ensures |r.0| > 0 ==> End(Last(r.0)) > start
    decreases |stack|
  {
    if |stack| > 0 && End(Last(stack)) <= start then
      var next := Attach(stack[..|stack| - 1], roots, Last(stack));
      PopClosed(next.0, next.1, start)
    else (stack, roots)
  }

  /** Pops and attaches every remaining open tree, top first. */
  function Drain(stack: seq<Tree>, roots: seq<Tree>): seq<Tree>
    decreases |stack|
  {
    if |stack| == 0 then roots
    else
      var next := Attach(stack[..|stack| - 1], roots, Last(stack));
      Drain(next.0, next.1)
  }

  /** Processes the remaining symbols: close what ends before each one, then open it. */
  function NestFrom(stack: seq<Tree>, roots: seq<Tree>, rest: seq<FlatSymbol>): seq<Tree>
    decreases |rest|
  {
    if |rest| == 0 then Drain(stack, roots)
    else
      var next := PopClosed(stack, roots, rest[0].startByte);
      NestFrom(next.0 + [Leaf(rest[0])], next.1, rest[1..])
  }

  /** The forest `build_nested_tree` builds, with byte spans kept. */
  function Nest(flat: seq<FlatSymbol>): seq<Tree>
  {
    if |flat| == 0 then [] else NestFrom([], [], flat)
  }

  // ----- what the forest satisfies -----

  predicate SortedByStart(flat: seq<FlatSymbol>)
  {
    forall i, j :: 0 <= i < j < |flat| ==> flat[i].startByte <= flat[j].startByte
  }

  /** Each tree of `ts` starts at or after the end of the one before it. */
  predicate SiblingsOrdered(ts: seq<Tree>)
  {
    forall k :: 0 < k < |ts| ==> End(ts[k - 1]) <= Start(ts[k])
  }

  /**
   * Every child starts inside its parent's half-open span [start, end), and
   * consecutive children do not overlap, all the way down.
   */
  predicate WellNested(t: Tree)
    decreases t, 1
  {
    && (forall k :: 0 <= k < |t.children| ==>
          Start(t) <= Start(t.children[k]) < End(t))
    && SiblingsOrdered(t.children)
    && AllWellNested(t.children)
  }

  predicate AllWellNested(ts: seq<Tree>)
    decreases ts, 0
  {
    forall k :: 0 <= k < |ts| ==> WellNested(ts[k])
  }

  /** Every child's end lies within its parent's end, all the way down. */
  predicate Contained(t: Tree)
    decreases t, 1
  {
    && (forall k :: 0 <= k < |t.children| ==> End(t.children[k]) <= End(t))
    && AllContained(t.children)
  }

  predicate AllContained(ts: seq<Tree>)
    decreases ts, 0
  {
    forall k :: 0 <= k < |ts| ==> Contained(ts[k])
  }

  /** Spans that overlap are nested: a later span starting inside an earlier one ends inside it. */
  predicate SpansNest(flat: seq<FlatSymbol>)
  {
    forall i, j :: 0 <= i < j < |flat| ==>
      flat[j].startByte >= flat[i].endByte || flat[j].endByte <= flat[i].endByte
  }

  /** The last child of `t`, if any, ends by `bound`. */
  predicate ChildrenEndBy(t: Tree, bound: nat)
  {
    |t.children| > 0 ==> End(Last(t.children)) <= bound
  }

  // ----- every symbol once, in input order -----

  lemma FlattenConcat(a: seq<Tree>, b: seq<Tree>)
    ensures Flatten(a + b) == Flatten(a) + Flatten(b)
    decreases |b|
  {
    if |b| > 0 {
      var b' := b[..|b| - 1];
      assert a + b == (a + b') + [Last(b)];
      assert b == b' + [Last(b)];
      FlattenAppend(a + b', Last(b));
      FlattenAppend(b', Last(b));
      FlattenConcat(a, b');
    } else {
      assert a + b == a;
    }
  }

  lemma AttachFlatten(stack: seq<Tree>, roots: seq<Tree>, t: Tree)
    ensures var r := Attach(stack, roots, t);
      Flatten(r.1 + r.0) == Flatten(roots + stack) + Preorder(t)
  {
    var r := Attach(stack, roots, t);
    if |stack| == 0 {
      assert r.1 + r.0 == roots + [t];
      assert roots + stack == roots;
      FlattenAppend(roots, t);
    } else {
      var s' := stack[..|stack| - 1];
      var p := Last(stack);
      assert r.1 + r.0 == (roots + s') + [AddChild(p, t)];
      assert roots + stack == (roots + s') + [p];
      FlattenAppend(roots + s', AddChild(p, t));
      FlattenAppend(roots + s', p);
      PreorderAddChild(p, t);
    }
  }

  lemma {:induction false} PopClosedFlatten(stack: seq<Tree>, roots: seq<Tree>, start: nat)
    ensures var r := PopClosed(stack, roots, start);
      Flatten(r.1 + r.0) == Flatten(roots + stack)
    decreases |stack|
  {
    if |stack| > 0 && End(Last(stack)) <= start {
      var s' := stack[..|stack| - 1];
      var next := Attach(s', roots, Last(stack));
      AttachFlatten(s', roots, Last(stack));
      assert roots + stack == (roots + s') + [Last(stack)];
      FlattenAppend(roots + s', Last(stack));
      PopClosedFlatten(next.0, next.1, start);
    }
  }

  lemma {:induction false} DrainFlatten(stack: seq<Tree>, roots: seq<Tree>)
    ensures Flatten(Drain(stack, roots)) == Flatten(roots + stack)
    decreases |stack|
  {
    if |stack| == 0 {
      assert roots + stack == roots;
    } else {
      var s' := stack[..|stack| - 1];
      var next := Attach(s', roots, Last(stack));
      AttachFlatten(s', roots, Last(stack));
      assert roots + stack == (roots + s') + [Last(stack)];
      FlattenAppend(roots + s', Last(stack));
      DrainFlatten(next.0, next.1);
    }
  }

  lemma PushFlatten(stack: seq<Tree>, roots: seq<Tree>, f: FlatSymbol)
    ensures Flatten(roots + (stack + [Leaf(f)])) == Flatten(roots + stack) + [f]
  {
    assert roots + (stack + [Leaf(f)]) == (roots + stack) + [Leaf(f)];
    FlattenAppend(roots + stack, Leaf(f));
    assert Flatten(Leaf(f).children) == [];
  }

  lemma {:induction false} NestFromFlatten(stack: seq<Tree>, roots: seq<Tree>, rest: seq<FlatSymbol>)
    ensures Flatten(NestFrom(stack, roots, rest)) == Flatten(roots + stack) + rest
    decreases |rest|
  {
    if |rest| == 0 {
      DrainFlatten(stack, roots);
    } else {
      var next := PopClosed(stack, roots, rest[0].startByte);
      var pushed := next.0 + [Leaf(rest[0])];
      PopClosedFlatten(stack, roots, rest[0].startByte);
      PushFlatten(next.0, next.1, rest[0]);
      NestFromFlatten(pushed, next.1, rest[1..]);
      assert NestFrom(stack, roots, rest) == NestFrom(pushed, next.1, rest[1..]);
      assert [rest[0]] + rest[1..] == rest;
    }
  }

  /**
   * The forest holds every input symbol exactly once: its pre-order is the
   * input sequence itself, so an empty input gives an empty forest.
   */
  lemma NestPreorder(flat: seq<FlatSymbol>)
    ensures Flatten(Nest(flat)) == flat
    ensures |Nest(flat)| == 0 <==> |flat| == 0
  {
    if |flat| > 0 {
      NestFromFlatten([], [], flat);
      assert Flatten([] + []) == [];
      assert Flatten(Nest(flat)) != [];
    }
  }

  // ----- spans nest and siblings do not overlap -----

  /**
   * What holds between steps of the fold, `lo` being the start byte of the
   * symbol processed last: open trees form a chain, each starting inside the
   * one below it; each open tree's completed children end by the start of
   * the tree above it (by `lo` for the top); the roots are ordered and end
   * before the bottom of the stack.
   */
  predicate Inv(stack: seq<Tree>, roots: seq<Tree>, lo: nat)
  {
    && AllWellNested(roots)
    && AllWellNested(stack)
    && SiblingsOrdered(roots)
    && (forall k :: 0 < k < |stack| ==>
          Start(stack[k - 1]) <= Start(stack[k]) < End(stack[k - 1]))
    && (forall k :: 0 < k < |stack| ==> ChildrenEndBy(stack[k - 1], Start(stack[k])))
    && (forall k :: 0 <= k < |stack| ==> Start(stack[k]) <= lo)
    && (|stack| > 0 ==> ChildrenEndBy(Last(stack), lo))
    && (|roots| > 0 ==> End(Last(roots)) <= if |stack| > 0 then Start(stack[0]) else lo)
  }

  lemma AddChildWellNested(p: Tree, c: Tree)
    requires WellNested(p) && WellNested(c)
    requires Start(p) <= Start(c) < End(p)
    requires ChildrenEndBy(p, Start(c))
    ensures WellNested(AddChild(p, c))
  {
    var q := AddChild(p, c);
    assert forall k :: 0 <= k < |p.children| ==> q.children[k] == p.children[k];
  }

  /** Closing the only open symbol makes it the last root. */
  lemma AttachRootKeepsInv(stack: seq<Tree>, roots: seq<Tree>, lo: nat)
    requires |stack| == 1 && Inv(stack, roots, lo)
    requires End(Last(stack)) <= lo
    ensures var r := Attach([], roots, Last(stack)); Inv(r.0, r.1, lo)
  {
    var t := Last(stack);
    var r := Attach([], roots, t);
    assert r.1 == roots + [t];
    assert forall k :: 0 <= k < |roots| ==> r.1[k] == roots[k];
  }

  /** Closing an inner open symbol makes it the last child of the one below it. */
  lemma AttachChildKeepsInv(stack: seq<Tree>, roots: seq<Tree>, lo: nat)
    requires |stack| > 1 && Inv(stack, roots, lo)
    requires End(Last(stack)) <= lo
    ensures var r := Attach(stack[..|stack| - 1], roots, Last(stack)); Inv(r.0, r.1, lo)
  {
    var s' := stack[..|stack| - 1];
    var t := Last(stack);
    var r := Attach(s', roots, t);
    var p := Last(s');
    AddChildWellNested(p, t);
    var q := AddChild(p, t);
    assert r.0 == s'[..|s'| - 1] + [q] && r.1 == roots;
    assert forall k :: 0 <= k < |s'| - 1 ==> r.0[k] == stack[k];
    assert Start(q) == Start(p) && End(q) == End(p);
    assert forall k :: 0 <= k < |r.0| ==>
      Start(r.0[k]) == Start(stack[k]) && End(r.0[k]) == End(stack[k]);
  }

  lemma AttachKeepsInv(stack: seq<Tree>, roots: seq<Tree>, lo: nat)
    requires |stack| > 0 && Inv(stack, roots, lo)
    requires End(Last(stack)) <= lo
    ensures var r := Attach(stack[..|stack| - 1], roots, Last(stack)); Inv(r.0, r.1, lo)
  {
    if |stack| == 1 {
      assert stack[..0] == [];
      AttachRootKeepsInv(stack, roots, lo);
    } else {
      AttachChildKeepsInv(stack, roots, lo);
    }
  }

  lemma InvRaise(stack: seq<Tree>, roots: seq<Tree>, lo: nat, hi: nat)
    requires Inv(stack, roots, lo) && lo <= hi
    ensures Inv(stack, roots, hi)
  {
  }

  lemma {:induction false} PopClosedKeepsInv(stack: seq<Tree>, roots: seq<Tree>, start: nat)
    requires Inv(stack, roots, start)
    ensures var r := PopClosed(stack, roots, start); Inv(r.0, r.1, start)
    decreases |stack|
  {
    if |stack| > 0 && End(Last(stack)) <= start {
      var next := Attach(stack[..|stack| - 1], roots, Last(stack));
      AttachKeepsInv(stack, roots, start);
      PopClosedKeepsInv(next.0, next.1, start);
    }
  }

  lemma PushKeepsInv(stack: seq<Tree>, roots: seq<Tree>, f: FlatSymbol)
    requires Inv(stack, roots, f.startByte)
    requires |stack| > 0 ==> End(Last(stack)) > f.startByte
    ensures Inv(stack + [Leaf(f)], roots, f.startByte)
  {
    var s2 := stack + [Leaf(f)];
    assert forall k :: 0 <= k < |stack| ==> s2[k] == stack[k];
  }

  lemma {:induction false} DrainKeepsInv(stack: seq<Tree>, roots: seq<Tree>, lo: nat)
    requires Inv(stack, roots, lo)
    ensures AllWellNested(Drain(stack, roots)) && SiblingsOrdered(Drain(stack, roots))
    decreases |stack|
  {
    if |stack| > 0 {
      var hi := if End(Last(stack)) <= lo then lo else End(Last(stack));
      InvRaise(stack, roots, lo, hi);
      var next := Attach(stack[..|stack| - 1], roots, Last(stack));
      AttachKeepsInv(stack, roots, hi);
      DrainKeepsInv(next.0, next.1, hi);
    }
  }

  lemma {:induction false} NestFromKeepsInv(stack: seq<Tree>, roots: seq<Tree>, lo: nat, rest: seq<FlatSymbol>)
    requires Inv(stack, roots, lo)
    requires SortedByStart(rest)
    requires forall i :: 0 <= i < |rest| ==> lo <= rest[i].startByte
    ensures AllWellNested(NestFrom(stack, roots, rest))
    ensures SiblingsOrdered(NestFrom(stack, roots, rest))
    decreases |rest|
  {
    if |rest| == 0 {
      DrainKeepsInv(stack, roots, lo);
    } else {
      var s := rest[0].startByte;
      InvRaise(stack, roots, lo, s);
      PopClosedKeepsInv(stack, roots, s);
      var next := PopClosed(stack, roots, s);
      PushKeepsInv(next.0, next.1, rest[0]);
      NestFromKeepsInv(next.0 + [Leaf(rest[0])], next.1, s, rest[1..]);
    }
  }

  /**
   * On input sorted by start byte, every child starts inside its parent's
   * span, and consecutive siblings, roots included, do not overlap.
   */
  lemma NestWellNested(flat: seq<FlatSymbol>)
    requires SortedByStart(flat)
    ensures AllWellNested(Nest(flat))
    ensures SiblingsOrdered(Nest(flat))
  {
    if |flat| > 0 {
      NestFromKeepsInv([], [], 0, flat);
    }
  }

  // ----- when input spans nest, children end within their parents -----

  predicate ContainedInv(stack: seq<Tree>, roots: seq<Tree>)
  {
    && AllContained(roots)
    && AllContained(stack)
    && (forall k :: 0 < k < |stack| ==> End(stack[k]) <= End(stack[k - 1]))
  }

  lemma AttachKeepsContained(stack: seq<Tree>, roots: seq<Tree>)
    requires |stack| > 0 && ContainedInv(stack, roots)
    ensures var r := Attach(stack[..|stack| - 1], roots, Last(stack)); ContainedInv(r.0, r.1)
  {
    var s' := stack[..|stack| - 1];
    var t := Last(stack);
    var r := Attach(s', roots, t);
    if |s'| == 0 {
      assert forall k :: 0 <= k < |roots| ==> r.1[k] == roots[k];
    } else {
      var p := Last(s');
      var q := AddChild(p, t);
      assert forall k :: 0 <= k < |p.children| ==> q.children[k] == p.children[k];
      assert End(stack[|stack| - 1]) <= End(stack[|stack| - 2]);
      assert Contained(t) && Contained(p);
      assert AllContained(p.children);
      forall k | 0 <= k < |q.children|
        ensures Contained(q.children[k])
      {
        if k < |p.children| {
          assert Contained(p.children[k]);
        } else {
          assert q.children[k] == t;
        }
      }
      assert Contained(q);
      assert r.0 == s'[..|s'| - 1] + [q];
      assert forall k :: 0 <= k < |s'| - 1 ==> r.0[k] == stack[k];
    }
  }

  lemma {:induction false} PopClosedKeepsContained(stack: seq<Tree>, roots: seq<Tree>, start: nat)
    requires ContainedInv(stack, roots)
    ensures var r := PopClosed(stack, roots, start); ContainedInv(r.0, r.1)
    decreases |stack|
  {
    if |stack| > 0 && End(Last(stack)) <= start {
      var next := Attach(stack[..|stack| - 1], roots, Last(stack));
      AttachKeepsContained(stack, roots);
      PopClosedKeepsContained(next.0, next.1, start);
    }
  }

  lemma {:induction false} DrainKeepsContained(stack: seq<Tree>, roots: seq<Tree>)
    requires ContainedInv(stack, roots)
    ensures AllContained(Drain(stack, roots))
    decreases |stack|
  {
    if |stack| > 0 {
      var next := Attach(stack[..|stack| - 1], roots, Last(stack));
      AttachKeepsContained(stack, roots);
      DrainKeepsContained(next.0, next.1);
    }
  }

  /** The top of a non-empty stack is one of the symbols already processed. */
  lemma TopWasProcessed(stack: seq<Tree>, roots: seq<Tree>)
    requires |stack| > 0
    ensures Last(stack).flat in Flatten(roots + stack)
  {
    assert roots + stack == (roots + stack[..|stack| - 1]) + [Last(stack)];
    FlattenAppend(roots + stack[..|stack| - 1], Last(stack));
    assert Preorder(Last(stack))[0] == Last(stack).flat;
  }

  lemma PushKeepsContained(stack: seq<Tree>, roots: seq<Tree>, f: FlatSymbol)
    requires ContainedInv(stack, roots)
    requires |stack| > 0 ==> f.endByte <= End(Last(stack))
    ensures ContainedInv(stack + [Leaf(f)], roots)
  {
    var pushed := stack + [Leaf(f)];
    assert forall k :: 0 <= k < |stack| ==> pushed[k] == stack[k];
  }

  /** An open tree that the next symbol starts inside also contains its end. */
  lemma NextEndsInsideTop(stack: seq<Tree>, roots: seq<Tree>, done: seq<FlatSymbol>, rest: seq<FlatSymbol>)
    requires |stack| > 0 && |rest| > 0
    requires Flatten(roots + stack) == done
    requires SpansNest(done + rest)
    requires rest[0].startByte < End(Last(stack))
    ensures rest[0].endByte <= End(Last(stack))
  {
    TopWasProcessed(stack, roots);
    var i :| 0 <= i < |done| && done[i] == Last(stack).flat;
    assert (done + rest)[i] == done[i];
    assert (done + rest)[|done|] == rest[0];
  }

  lemma {:induction false} NestFromContained(
    stack: seq<Tree>, roots: seq<Tree>, done: seq<FlatSymbol>, rest: seq<FlatSymbol>)
    requires ContainedInv(stack, roots)
    requires Flatten(roots + stack) == done
    requires SpansNest(done + rest)
    ensures AllContained(NestFrom(stack, roots, rest))
    decreases |rest|
  {
    if |rest| == 0 {
      DrainKeepsContained(stack, roots);
    } else {
      var f := rest[0];
      var next := PopClosed(stack, roots, f.startByte);
      PopClosedKeepsContained(stack, roots, f.startByte);
      PopClosedFlatten(stack, roots, f.startByte);
      if |next.0| > 0 {
        NextEndsInsideTop(next.0, next.1, done, rest);
      }
      PushKeepsContained(next.0, next.1, f);
      PushFlatten(next.0, next.1, f);
      var done' := done + [f];
      assert done' + rest[1..] == done + rest by {
        assert [f] + rest[1..] == rest;
      }
      NestFromContained(next.0 + [Leaf(f)], next.1, done', rest[1..]);
    }
  }

  /**
   * When the input spans nest (no span starts inside another and ends past
   * it), every child ends within its parent as well.
   */
  lemma NestContained(flat: seq<FlatSymbol>)
    requires SpansNest(flat)
    ensures AllContained(Nest(flat))
  {
    if |flat| > 0 {
      assert [] + flat == flat;
      NestFromContained([], [], [], flat);
    }
  }

  // ----- examples -----

  function Span(name: string, startByte: nat, endByte: nat): FlatSymbol
  {
    FlatSymbol(name, Function, startByte, endByte,
      Range(Position(startByte + 1, 0), Position(endByte + 1, 0)))
  }

  lemma FirstPush(f: FlatSymbol, rest: seq<FlatSymbol>)
    ensures NestFrom([], [], [f] + rest) == NestFrom([Leaf(f)], [], rest)
  {
    assert ([f] + rest)[0] == f && ([f] + rest)[1..] == rest;
    assert PopClosed([], [], f.startByte) == ([], []);
    assert [] + [Leaf(f)] == [Leaf(f)];
  }

  lemma AttachToRoots(roots: seq<Tree>, t: Tree)
    ensures Attach([], roots, t) == ([], roots + [t])
  {
  }

  /** [0, 40) then [10, 20): one root with one child. */
  lemma NestExampleInside()
    ensures var outer, inner := Span("outer", 0, 40), Span("inner", 10, 20);
      Nest([outer, inner]) == [Tree(outer, [Leaf(inner)])]
  {
    var outer, inner := Span("outer", 0, 40), Span("inner", 10, 20);
    var t := Tree(outer, [Leaf(inner)]);
    assert NestFrom([], [], [outer, inner]) == NestFrom([Leaf(outer)], [], [inner]) by {
      FirstPush(outer, [inner]);
      assert [outer] + [inner] == [outer, inner];
    }
    assert PopClosed([Leaf(outer)], [], 10) == ([Leaf(outer)], []);
    assert NestFrom([Leaf(outer)], [], [inner]) == Drain([Leaf(outer), Leaf(inner)], []) by {
      assert [Leaf(outer)] + [Leaf(inner)] == [Leaf(outer), Leaf(inner)];
    }
    assert Drain([Leaf(outer), Leaf(inner)], []) == Drain([t], []) by {
      assert [Leaf(outer), Leaf(inner)][..1] == [Leaf(outer)];
      assert AddChild(Leaf(outer), Leaf(inner)) == t;
      assert Attach([Leaf(outer)], [], Leaf(inner)) == ([t], []);
    }
    assert Drain([t], []) == [t] by {
      assert [t][..0] == [];
      AttachToRoots([], t);
    }
  }

  /** [0, 10) then [20, 30): two roots. */
  lemma NestExampleApart()
    ensures var a, b := Span("a", 0, 10), Span("b", 20, 30);
      Nest([a, b]) == [Leaf(a), Leaf(b)]
  {
    var a, b := Span("a", 0, 10), Span("b", 20, 30);
    assert NestFrom([], [], [a, b]) == NestFrom([Leaf(a)], [], [b]) by {
      FirstPush(a, [b]);
      assert [a] + [b] == [a, b];
    }
    assert PopClosed([Leaf(a)], [], 20) == ([], [Leaf(a)]) by {
      assert [Leaf(a)][..0] == [];
      AttachToRoots([], Leaf(a));
    }
    assert NestFrom([Leaf(a)], [], [b]) == Drain([Leaf(b)], [Leaf(a)]) by {
      assert [] + [Leaf(b)] == [Leaf(b)];
    }
    assert Drain([Leaf(b)], [Leaf(a)]) == [Leaf(a), Leaf(b)] by {
      assert [Leaf(b)][..0] == [];
      AttachToRoots([Leaf(a)], Leaf(b));
      assert [Leaf(a)] + [Leaf(b)] == [Leaf(a), Leaf(b)];
    }
  }

  /**
   * [0, 10) then [5, 20): the second symbol starts inside the first and ends
   * past it, and still becomes its child, whatever its end byte.
   */
  lemma NestExampleOverlap()
    ensures var a, b := Span("a", 0, 10), Span("b", 5, 20);
      Nest([a, b]) == [Tree(a, [Leaf(b)])] && !AllContained(Nest([a, b]))
  {
    var a, b := Span("a", 0, 10), Span("b", 5, 20);
    var t := Tree(a, [Leaf(b)]);
    assert NestFrom([], [], [a, b]) == NestFrom([Leaf(a)], [], [b]) by {
      FirstPush(a, [b]);
      assert [a] + [b] == [a, b];
    }
    assert PopClosed([Leaf(a)], [], 5) == ([Leaf(a)], []);
    assert NestFrom([Leaf(a)], [], [b]) == Drain([Leaf(a), Leaf(b)], []) by {
      assert [Leaf(a)] + [Leaf(b)] == [Leaf(a), Leaf(b)];
    }
    assert Drain([Leaf(a), Leaf(b)], []) == Drain([t], []) by {
      assert [Leaf(a), Leaf(b)][..1] == [Leaf(a)];
      assert AddChild(Leaf(a), Leaf(b)) == t;
      assert Attach([Leaf(a)], [], Leaf(b)) == ([t], []);
    }
    assert Drain([t], []) == [t] by {
      assert [t][..0] == [];
      AttachToRoots([], t);
    }
    assert !Contained([t][0]) by {
      assert End(t.children[0]) > End(t);
    }
  }

  // ----- the symbols the source builds -----

  /** The `Symbol` a tree stands for: no detail, children converted in order. */
  function ToSymbol(t: Tree): (s: Symbol)
    ensures s.name == t.flat.name && s.kind == t.flat.kind && s.range == t.flat.range
    ensures s.detail.None? && |s.children| == |t.children|
    decreases t, 1
  {
    Symbol(t.flat.name, t.flat.kind, None, t.flat.range, ToSymbols(t.children))
  }

  function ToSymbols(ts: seq<Tree>): (ss: seq<Symbol>)
    ensures |ss| == |ts|
    decreases ts, 0
  {
    seq(|ts|, i requires 0 <= i < |ts| => ToSymbol(ts[i]))
  }

  lemma ToSymbolsAppend(ts: seq<Tree>, t: Tree)
    ensures ToSymbols(ts + [t]) == ToSymbols(ts) + [ToSymbol(t)]
  {
    assert forall i :: 0 <= i < |ts| ==> (ts + [t])[i] == ts[i];
  }

  lemma ToSymbolAddChild(p: Tree, c: Tree)
    ensures ToSymbol(AddChild(p, c))
      == ToSymbol(p).(children := ToSymbol(p).children + [ToSymbol(c)])
  {
    ToSymbolsAppend(p.children, c);
  }

  /** The number of symbols in the converted forest is the length of its pre-order. */
  lemma {:induction false} CountToSymbols(ts: seq<Tree>)
    ensures Count(ToSymbols(ts)) == |Flatten(ts)|
    decreases ts
  {
    if |ts| > 0 {
      var front := ts[..|ts| - 1];
      var ss := ToSymbols(ts);
      CountConcat(ToSymbols(front), [ToSymbol(Last(ts))]);
      ToSymbolsAppend(front, Last(ts));
      assert front + [Last(ts)] == ts;
      CountToSymbols(front);
      CountToSymbols(Last(ts).children);
      assert Count([ToSymbol(Last(ts))]) == 1 + Count(ToSymbols(Last(ts).children)) + Count([]);
    }
  }

  /** Every input symbol becomes exactly one `Symbol` of the forest. */
  lemma BuiltCount(flat: seq<FlatSymbol>)
    ensures Count(ToSymbols(Nest(flat))) == |flat|
  {
    CountToSymbols(Nest(flat));
    NestPreorder(flat);
  }

  // ----- build_nested_tree -----

  /** The stack entries of the source, (symbol, end byte), standing for open trees. */
  predicate Mirrors(stack: seq<(Symbol, nat)>, open: seq<Tree>)
  {
    |stack| == |open| &&
    forall k :: 0 <= k < |stack| ==> stack[k] == (ToSymbol(open[k]), End(open[k]))
  }

  /** Pops the top entry and hands it to the entry below it, or to the roots. */
  method PopInto(stack: seq<(Symbol, nat)>, result: seq<Symbol>, ghost open: seq<Tree>, ghost roots: seq<Tree>)
    returns (stack': seq<(Symbol, nat)>, result': seq<Symbol>, ghost open': seq<Tree>, ghost roots': seq<Tree>)
    requires |stack| > 0 && Mirrors(stack, open) && result == ToSymbols(roots)
    ensures (open', roots') == Attach(open[..|open| - 1], roots, Last(open))
    ensures Mirrors(stack', open') && result' == ToSymbols(roots')
  {
    var completed := Last(stack).0;
    stack' := stack[..|stack| - 1];
    open', roots' := Attach(open[..|open| - 1], roots, Last(open)).0, Attach(open[..|open| - 1], roots, Last(open)).1;
    if |stack'| > 0 {
      var (parent, parentEnd) := Last(stack');
      stack' := stack'[..|stack'| - 1] + [(parent.(children := parent.children + [completed]), parentEnd)];
      result' := result;
      ToSymbolAddChild(Last(open[..|open| - 1]), Last(open));
      assert forall k :: 0 <= k < |stack'| - 1 ==> stack'[k] == stack[k] && open'[k] == open[k];
    } else {
      result' := result + [completed];
      ToSymbolsAppend(roots, Last(open));
    }
  }

  /**
   * Folds symbols sorted by start byte into a forest: symbols whose end byte
   * is at or before the next start byte are closed and attached to the
   * symbol below them on the stack (or to the roots); the next symbol is then
   * pushed, by either of two branches that do the same thing.
   */
  method BuildNestedTree(flat: seq<FlatSymbol>) returns (result: seq<Symbol>)
    ensures result == ToSymbols(Nest(flat))
  {
    if |flat| == 0 {
      return [];
    }
    result := [];
    var stack: seq<(Symbol, nat)> := [];
    ghost var open: seq<Tree> := [];
    ghost var roots: seq<Tree> := [];
    for i := 0 to |flat|
      invariant Mirrors(stack, open) && result == ToSymbols(roots)
      invariant NestFrom(open, roots, flat[i..]) == Nest(flat)
    {
      var f := flat[i];
      var symbol := Symbol(f.name, f.kind, None, f.range, []);
      ghost var target := PopClosed(open, roots, f.startByte);
      while |stack| > 0
        invariant Mirrors(stack, open) && result == ToSymbols(roots)
        invariant PopClosed(open, roots, f.startByte) == target
        decreases |stack|
      {
        if f.startByte >= Last(stack).1 {
          stack, result, open, roots := PopInto(stack, result, open, roots);
        } else {
          break;
        }
      }
      assert (open, roots) == target;
      assert flat[i..] == [f] + flat[i + 1..];
      assert ToSymbol(Leaf(f)) == symbol;
      if |stack| > 0 {
        if f.endByte <= Last(stack).1 {
          stack := stack + [(symbol, f.endByte)];
          open := open + [Leaf(f)];
          continue;
        }
      }
      stack := stack + [(symbol, f.endByte)];
      open := open + [Leaf(f)];
    }
    while |stack| > 0
      invariant Mirrors(stack, open) && result == ToSymbols(roots)
      invariant Drain(open, roots) == Nest(flat)
      decreases |stack|
    {
      stack, result, open, roots := PopInto(stack, result, open, roots);
    }
  }
}
