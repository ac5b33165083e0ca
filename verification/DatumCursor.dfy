/** The cursor that is embedded in a tree of data (cpDatum.cpp): every datum remembers which of its
    sub-data is current, and `Advance` moves on through the whole tree. */
module DatumCursor {
  import opened DatumTree

  /** A tree of objects with the cursor of each. */
  datatype Cursor = Node(obj: Datum, onSelf: bool, iter: nat, subs: seq<Cursor>)

  // -------------------------------------------------------------------------
  // As functions

  /** On the datum itself, before its first sub-datum. */
  function Rewound(c: Cursor): Cursor { c.(onSelf := true, iter := 0) }

  /** `Advance`: the cursor afterwards, and whether there was a next datum. */
  function Advanced(c: Cursor, recurse: bool): (r: (Cursor, bool))
    ensures r.0.obj == c.obj && |r.0.subs| == |c.subs|
  {
    if c.onSelf then Settle(c.(onSelf := false, iter := 0))
    else if c.iter >= |c.subs| then (c, false)
    else if !recurse then Settle(c.(iter := c.iter + 1))
    else
      var (sub, moved) := Advanced(c.subs[c.iter], true);
      var d := c.(subs := c.subs[c.iter := sub]);
      if moved then (d, true) else Settle(d.(iter := c.iter + 1))
  }

  /** The end of `Advance`: a datum that is newly current is rewound. */
  function Settle(c: Cursor): (r: (Cursor, bool))
    ensures r.0.obj == c.obj && |r.0.subs| == |c.subs|
  {
    if c.iter < |c.subs| then (c.(subs := c.subs[c.iter := Rewound(c.subs[c.iter])]), true)
    else (c, false)
  }

  type Path = seq<nat>

  function Under(i: nat, ps: seq<Path>): (r: seq<Path>)
    ensures |r| == |ps|
  {
    seq(|ps|, k requires 0 <= k < |ps| => [i] + ps[k])
  }

  /** The paths to all descendants, each datum before its sub-data. */
  function PreOrder(c: Cursor): seq<Path>
    decreases c
  {
    Later(c.subs, 0)
  }

  /** Those to the sub-data from i on and below them. */
  function Later(subs: seq<Cursor>, i: nat): seq<Path>
    decreases subs, |subs| - i
  {
    if i >= |subs| then []
    else [[i]] + Under(i, PreOrder(subs[i])) + Later(subs, i + 1)
  }

  /** What the cursor has not yet reached. */
  function Remaining(c: Cursor): seq<Path> {
    if c.onSelf then PreOrder(c)
    else if c.iter >= |c.subs| then []
    else Under(c.iter, Remaining(c.subs[c.iter])) + Later(c.subs, c.iter + 1)
  }

  datatype Place = At(path: Path) | End

  /** `GetRecursive`: where the cursor is; the inert datum stands for the end. */
  function Position(c: Cursor): Place {
    if c.onSelf then At([])
    else if c.iter >= |c.subs| then End
    else
      match Position(c.subs[c.iter])
      case At(p) => At([c.iter] + p)
      case End => End
  }

  // -------------------------------------------------------------------------
  // One step

  /** The tree stays the same where only cursors differ. */
  lemma {:induction false} LaterSame(subs: seq<Cursor>, k: nat, sub: Cursor, i: nat)
    requires k < |subs| && PreOrder(sub) == PreOrder(subs[k])
    ensures Later(subs[k := sub], i) == Later(subs, i)
    decreases |subs| - i
  {
    hide PreOrder;
    if i < |subs| {
      LaterSame(subs, k, sub, i + 1);
    }
  }

  lemma SettleVisits(c: Cursor)
    requires !c.onSelf
    ensures var (d, moved) := Settle(c);
      && PreOrder(d) == PreOrder(c) && (moved <==> c.iter < |c.subs|)
      && Remaining(d) == (if moved then Under(c.iter, PreOrder(c.subs[c.iter])) + Later(c.subs, c.iter + 1) else [])
      && Position(d) == if moved then At([c.iter]) else End
  {
    hide Later;
    if c.iter < |c.subs| {
      var r := Rewound(c.subs[c.iter]);
      assert PreOrder(r) == PreOrder(c.subs[c.iter]);
      LaterSame(c.subs, c.iter, r, 0);
      LaterSame(c.subs, c.iter, r, c.iter + 1);
      assert [c.iter] + [] == [c.iter];
    }
  }

  lemma LaterStep(subs: seq<Cursor>, i: nat)
    ensures i >= |subs| ==> Later(subs, i) == []
    ensures i < |subs| ==> Later(subs, i) == [[i]] + Under(i, PreOrder(subs[i])) + Later(subs, i + 1)
  {
    hide PreOrder;
  }

  lemma UnderFirst(i: nat, ps: seq<Path>, more: seq<Path>)
    ensures ps == [] ==> Under(i, ps) + more == more
    ensures ps != [] ==> Under(i, ps) + more != [] && (Under(i, ps) + more)[0] == [i] + ps[0]
    ensures ps != [] ==> (Under(i, ps) + more)[1..] == Under(i, ps[1..]) + more
  {
  }

  /** What an advance from c does. */
  ghost predicate Visits(c: Cursor) {
    var (d, moved) := Advanced(c, true);
    && PreOrder(d) == PreOrder(c) && (moved <==> Remaining(c) != [])
    && (moved ==> Position(d) == At(Remaining(c)[0]) && Remaining(d) == Remaining(c)[1..])
    && (!moved ==> Position(d) == End && Remaining(d) == [])
  }

  lemma SelfVisits(c: Cursor)
    requires c.onSelf
    ensures Visits(c)
  {
    hide PreOrder, Later, Settle, Under;
    var e := c.(onSelf := false, iter := 0);
    assert PreOrder(e) == PreOrder(c) == Later(c.subs, 0) by {
      PreOrderIs(c);
      PreOrderIs(e);
    }
    SettleVisits(e);
    LaterStep(c.subs, 0);
  }

  /** Where the cursor is and what it has still to reach, by the current sub-datum. */
  lemma InSub(c: Cursor)
    requires !c.onSelf && c.iter < |c.subs|
    ensures Remaining(c) == Under(c.iter, Remaining(c.subs[c.iter])) + Later(c.subs, c.iter + 1)
    ensures Position(c.subs[c.iter]).At? ==> Position(c) == At([c.iter] + Position(c.subs[c.iter]).path)
    ensures var (sub, moved) := Advanced(c.subs[c.iter], true);
      var d := c.(subs := c.subs[c.iter := sub]);
      Advanced(c, true) == if moved then (d, true) else Settle(d.(iter := c.iter + 1))
  {
    hide PreOrder, Later, Settle, Under;
  }

  lemma SubVisits(c: Cursor)
    requires !c.onSelf && c.iter < |c.subs| && Visits(c.subs[c.iter])
    ensures Visits(c)
  {
    hide PreOrder, Later, Settle, Under, Advanced, Remaining, Position;
    var (sub, moved) := Advanced(c.subs[c.iter], true);
    var d := c.(subs := c.subs[c.iter := sub]);
    LaterSame(c.subs, c.iter, sub, 0);
    LaterSame(c.subs, c.iter, sub, c.iter + 1);
    PreOrderIs(c);
    PreOrderIs(d);
    InSub(c);
    UnderFirst(c.iter, Remaining(c.subs[c.iter]), Later(c.subs, c.iter + 1));
    if moved {
      InSub(d);
    } else {
      var e := d.(iter := c.iter + 1);
      PreOrderIs(e);
      SettleVisits(e);
      LaterStep(d.subs, c.iter + 1);
      LaterSame(c.subs, c.iter, sub, c.iter + 2);
    }
  }

  /** The cursor moves to the first datum not yet reached, or to the end when there is none. */
  lemma {:induction false} AdvanceVisits(c: Cursor)
    ensures var (d, moved) := Advanced(c, true);
      && PreOrder(d) == PreOrder(c) && (moved <==> Remaining(c) != [])
      && (moved ==> Position(d) == At(Remaining(c)[0]) && Remaining(d) == Remaining(c)[1..])
      && (!moved ==> Position(d) == End && Remaining(d) == [])
    decreases c
  {
    hide PreOrder, Later, Settle, Under;
    if c.onSelf {
      SelfVisits(c);
    } else if c.iter < |c.subs| {
      AdvanceVisits(c.subs[c.iter]);
      SubVisits(c);
    }
  }

  lemma PreOrderIs(c: Cursor)
    ensures PreOrder(c) == Later(c.subs, 0)
  {
    hide Later;
  }

  // -------------------------------------------------------------------------
  // Whole iterations

  /** The cursor after n recursive advances. */
  function Iterated(c: Cursor, n: nat): Cursor {
    if n == 0 then c else Advanced(Iterated(c, n - 1), true).0
  }

  /** The number of data below the root. */
  function Descendants(c: Cursor): nat
    decreases c
  {
    LaterCount(c.subs, 0)
  }

  function LaterCount(subs: seq<Cursor>, i: nat): nat
    decreases subs, |subs| - i
  {
    if i >= |subs| then 0 else 1 + Descendants(subs[i]) + LaterCount(subs, i + 1)
  }

  lemma {:induction false} PreOrderSize(c: Cursor)
    ensures |PreOrder(c)| == Descendants(c)
    decreases c
  {
    LaterSize(c.subs, 0);
  }

  lemma {:induction false} LaterSize(subs: seq<Cursor>, i: nat)
    ensures |Later(subs, i)| == LaterCount(subs, i)
    decreases subs, |subs| - i
  {
    hide PreOrder, Descendants;
    if i < |subs| {
      PreOrderSize(subs[i]);
      LaterSize(subs, i + 1);
    }
  }

  /** From a rewound cursor, the k-th advance reaches the k-th descendant in pre-order; after the
      last one the cursor is at the end and stays there. */
  lemma {:induction false} IterationVisits(c: Cursor, k: nat)
    ensures var order, d := PreOrder(c), Iterated(Rewound(c), k);
      && (Advanced(d, true).1 <==> k < |order|)
      && Position(d) == (if k == 0 then At([]) else if k <= |order| then At(order[k - 1]) else End)
      && Remaining(d) == if k <= |order| then order[k..] else []
  {
    hide PreOrder, Later, Advanced, Remaining, Position;
    var d := Iterated(Rewound(c), k);
    AdvanceVisits(d);
    if k == 0 {
      StartsAtSelf(c);
    } else {
      IterationVisits(c, k - 1);
      AdvanceVisits(Iterated(Rewound(c), k - 1));
    }
  }

  lemma StartsAtSelf(c: Cursor)
    ensures Position(Rewound(c)) == At([]) && Remaining(Rewound(c)) == PreOrder(c)
  {
  }

  /** The cursor after n advances that do not recurse, each of them a `Next`. */
  function Stepped(c: Cursor, n: nat): Cursor {
    if n == 0 then c else Advanced(Stepped(c, n - 1), false).0
  }

  /** An advance that does not recurse leaves the current sub-datum for the one behind it, wherever
      the cursor was below it, and rewinds that one. */
  lemma NextVisits(c: Cursor)
    requires !c.onSelf && c.iter < |c.subs|
    ensures var (d, moved) := Advanced(c, false);
      && (moved <==> c.iter + 1 < |c.subs|)
      && Position(d) == (if moved then At([c.iter + 1]) else End)
      && Remaining(d) == (if moved then Under(c.iter + 1, PreOrder(c.subs[c.iter + 1])) + Later(c.subs, c.iter + 2) else [])
      && PreOrder(d) == PreOrder(c)
  {
    hide PreOrder, Later, Settle, Under, Remaining, Position;
    var e := c.(iter := c.iter + 1);
    PreOrderIs(c);
    PreOrderIs(e);
    SettleVisits(e);
  }

  /** From a rewound cursor, the k-th of these advances reaches the k-th sub-datum itself, whatever
      lies below the others; behind the last one the cursor is at the end and stays there. */
  lemma {:induction false} NextsVisit(c: Cursor, k: nat)
    ensures var d := Stepped(Rewound(c), k);
      && (Advanced(d, false).1 <==> k < |c.subs|)
      && Position(d) == (if k == 0 then At([]) else if k <= |c.subs| then At([k - 1]) else End)
      && PreOrder(d) == PreOrder(c)
      && d.onSelf == (k == 0) && (k > 0 ==> d.iter == if k <= |c.subs| then k - 1 else |c.subs|)
      && |d.subs| == |c.subs|
  {
    hide PreOrder, Later, Settle, Under, Remaining, Position;
    var d := Stepped(Rewound(c), k);
    PreOrderIs(c);
    PreOrderIs(Rewound(c));
    if k == 0 {
      StartsAtSelf(c);
    } else {
      NextsVisit(c, k - 1);
      var b := Stepped(Rewound(c), k - 1);
      if k == 1 {
        FirstNext(b);
      } else if b.iter < |b.subs| {
        NextVisits(b);
        NextIter(b);
      }
    }
    if k == 0 {
      FirstNext(d);
    } else if d.iter < |d.subs| {
      NextVisits(d);
    }
  }

  lemma NextIter(c: Cursor)
    ensures !c.onSelf && c.iter < |c.subs| ==> Advanced(c, false).0.iter == c.iter + 1 && !Advanced(c, false).0.onSelf
    ensures c.onSelf ==> Advanced(c, false).0.iter == 0 && !Advanced(c, false).0.onSelf
  {
  }

  lemma FirstNext(c: Cursor)
    requires c.onSelf
    ensures var (d, moved) := Advanced(c, false);
      && (moved <==> c.subs != []) && PreOrder(d) == PreOrder(c) && Position(d) == (if moved then At([0]) else End)
      && d.iter == 0 && !d.onSelf
  {
    hide PreOrder, Later, Settle, Under, Remaining, Position;
    var e := c.(onSelf := false, iter := 0);
    PreOrderIs(c);
    PreOrderIs(e);
    SettleVisits(e);
    NextIter(c);
  }

  /** p leads from the root of c to a datum below it. */
  predicate Leads(c: Cursor, p: Path) {
    p == [] || (p[0] < |c.subs| && Leads(c.subs[p[0]], p[1..]))
  }

  /** Every descendant is visited. */
  lemma {:induction false} PreOrderHasAll(c: Cursor, p: Path)
    requires Leads(c, p) && p != []
    ensures p in PreOrder(c)
    decreases c
  {
    hide Later, PreOrder;
    PreOrderIs(c);
    LaterHas(c.subs, 0, p[0], p[1..], p[1..] != []);
    assert [p[0]] + p[1..] == p;
  }

  lemma {:induction false} LaterHas(subs: seq<Cursor>, i: nat, k: nat, p: Path, deep: bool)
    requires i <= k < |subs| && Leads(subs[k], p) && deep == (p != [])
    ensures [k] + p in Later(subs, i)
    decreases subs, |subs| - i
  {
    hide PreOrder, Later, Leads;
    LaterStep(subs, i);
    if i < k {
      LaterHas(subs, i + 1, k, p, deep);
    } else if deep {
      PreOrderHasAll(subs[k], p);
      UnderHas(k, PreOrder(subs[k]), p);
    } else {
      assert [k] + p == [k];
    }
  }

  lemma UnderHas(k: nat, ps: seq<Path>, p: Path)
    requires p in ps
    ensures [k] + p in Under(k, ps)
  {
    var x :| 0 <= x < |ps| && ps[x] == p;
    assert Under(k, ps)[x] == [k] + p;
  }

  /** No datum is visited twice. */
  lemma {:induction false} PreOrderOnce(c: Cursor)
    ensures forall x, y :: 0 <= x < y < |PreOrder(c)| ==> PreOrder(c)[x] != PreOrder(c)[y]
    ensures forall x :: 0 <= x < |PreOrder(c)| ==> PreOrder(c)[x] != []
    decreases c
  {
    hide Later, PreOrder;
    PreOrderIs(c);
    LaterOnce(c.subs, 0);
  }

  lemma {:induction false} LaterOnce(subs: seq<Cursor>, i: nat)
    ensures forall x, y :: 0 <= x < y < |Later(subs, i)| ==> Later(subs, i)[x] != Later(subs, i)[y]
    ensures forall x :: 0 <= x < |Later(subs, i)| ==> Later(subs, i)[x] != [] && Later(subs, i)[x][0] >= i
    decreases subs, |subs| - i
  {
    hide PreOrder, Later;
    LaterStep(subs, i);
    if i < |subs| {
      var below := PreOrder(subs[i]);
      PreOrderOnce(subs[i]);
      LaterOnce(subs, i + 1);
      var under := Under(i, below);
      forall x, y | 0 <= x < y < |under|
        ensures under[x] != under[y]
      {
        assert under[x][1..] == below[x] && under[y][1..] == below[y];
      }
      forall x | 0 <= x < |under|
        ensures under[x] != [i] && under[x][0] == i
      {
        assert under[x][1..] == below[x];
      }
    }
  }

  // -------------------------------------------------------------------------
  // As objects

  ghost function Footprint(c: Cursor): set<Datum> {
    {c.obj} + set i, d | 0 <= i < |c.subs| && d in Footprint(c.subs[i]) :: d
  }

  /** No object occurs twice in the tree. */
  ghost predicate Separate(c: Cursor) {
    && (forall i :: 0 <= i < |c.subs| ==> c.obj !in Footprint(c.subs[i]) && Separate(c.subs[i]))
    && (forall i, j :: 0 <= i < j < |c.subs| ==> Footprint(c.subs[i]) !! Footprint(c.subs[j]))
  }

  /** The objects hold this tree and this cursor. */
  ghost predicate Shows(c: Cursor)
    reads Footprint(c)
  {
    && c.obj.onSelf == c.onSelf && c.obj.iter == c.iter <= |c.subs| && |c.obj.datums| == |c.subs|
    && forall i :: 0 <= i < |c.subs| ==> c.obj.datums[i] == c.subs[i].obj && Shows(c.subs[i])
  }

  lemma {:induction false} SameObjects(c: Cursor, recurse: bool)
    ensures Footprint(Advanced(c, recurse).0) == Footprint(c)
    ensures Separate(c) ==> Separate(Advanced(c, recurse).0)
    decreases c
  {
    hide Footprint;
    if c.onSelf {
      SettleSame(c.(onSelf := false, iter := 0));
      CursorSame(c, c.(onSelf := false, iter := 0));
    } else if c.iter < |c.subs| {
      if recurse {
        var (sub, moved) := Advanced(c.subs[c.iter], true);
        SameObjects(c.subs[c.iter], true);
        var d := c.(subs := c.subs[c.iter := sub]);
        CursorSame(c, d);
        if !moved {
          CursorSame(d, d.(iter := c.iter + 1));
          SettleSame(d.(iter := c.iter + 1));
        }
      } else {
        CursorSame(c, c.(iter := c.iter + 1));
        SettleSame(c.(iter := c.iter + 1));
      }
    }
  }

  lemma CursorSame(c: Cursor, d: Cursor)
    requires d.obj == c.obj && |d.subs| == |c.subs|
    requires forall i :: 0 <= i < |c.subs| ==> Footprint(d.subs[i]) == Footprint(c.subs[i]) && (Separate(c.subs[i]) ==> Separate(d.subs[i]))
    ensures Footprint(d) == Footprint(c) && (Separate(c) ==> Separate(d))
  {
  }

  lemma SettleSame(c: Cursor)
    ensures Footprint(Settle(c).0) == Footprint(c) && (Separate(c) ==> Separate(Settle(c).0))
  {
    hide Footprint;
    if c.iter < |c.subs| {
      var sub := c.subs[c.iter];
      CursorSame(sub, Rewound(sub));
      CursorSame(c, Settle(c).0);
    }
  }

  /** `Rewind` */
  method Rewind(dat: Datum, ghost c: Cursor) returns (rv: bool)
    requires c.obj == dat && Separate(c) && Shows(c)
    modifies dat`onSelf, dat`iter
    ensures Shows(Rewound(c)) && (rv <==> c.subs != [])
  {
    dat.onSelf := true;
    dat.iter := 0;
    rv := dat.iter < |dat.datums|;
  }

  lemma Parts(c: Cursor)
    requires Separate(c)
    ensures c.obj in Footprint(c)
    ensures forall i :: 0 <= i < |c.subs| ==> c.obj !in Footprint(c.subs[i]) && Footprint(c.subs[i]) <= Footprint(c) && Separate(c.subs[i])
    ensures forall i, j :: 0 <= i < |c.subs| && 0 <= j < |c.subs| && i != j ==> Footprint(c.subs[i]) !! Footprint(c.subs[j])
  {
  }

  ghost function Footprints(c: Cursor): (r: seq<set<Datum>>)
    ensures |r| == |c.subs| && forall i :: 0 <= i < |r| ==> r[i] == Footprint(c.subs[i])
  {
    seq(|c.subs|, i requires 0 <= i < |c.subs| => Footprint(c.subs[i]))
  }

  /** The datum's own cursor is set. */
  method SetCursor(dat: Datum, iter: nat, ghost c: Cursor)
    requires c.obj == dat && Separate(c) && Shows(c) && iter <= |c.subs|
    modifies dat`onSelf, dat`iter
    ensures Shows(c.(onSelf := false, iter := iter))
  {
    hide Separate, Footprint;
    Parts(c);
    dat.onSelf := false;
    dat.iter := iter;
  }

  /** The current sub-datum is rewound. */
  method RewindCurrent(current: Datum, ghost c: Cursor, ghost fps: seq<set<Datum>>)
    requires fps == Footprints(c) && Separate(c) && Shows(c) && c.iter < |c.subs| && current == c.obj.datums[c.iter]
    modifies current`onSelf, current`iter
    ensures Shows(Settle(c).0)
  {
    hide Separate, Footprint;
    Parts(c);
    ghost var sub := c.subs[c.iter];
    Inside(sub);
    var r := Rewind(current, sub);
    forall i | 0 <= i < |c.subs| && i != c.iter
      ensures Shows(c.subs[i])
    {
      assert fps[i] !! fps[c.iter] && fps[i] == Footprint(c.subs[i]);
    }
  }

  lemma Inside(c: Cursor)
    ensures c.obj in Footprint(c)
  {
  }

  /** `Advance` on the objects */
  method Advance(dat: Datum, recurse: bool, ghost c: Cursor) returns (rv: bool)
    requires c.obj == dat && Separate(c) && Shows(c)
    modifies Footprint(c)`onSelf, Footprint(c)`iter
    ensures rv == Advanced(c, recurse).1 && Shows(Advanced(c, recurse).0)
    decreases c, 1
  {
    hide Separate, Footprint;
    Parts(c);
    var rewind := true;
    ghost var d := c;
    if dat.onSelf {
      SetCursor(dat, 0, c);
      d := c.(onSelf := false, iter := 0);
      CursorSame(c, d);
    } else if dat.iter < |dat.datums| {
      if recurse {
        var moved := AdvanceCurrent(dat, c, Footprints(c));
        d := c.(subs := c.subs[c.iter := Advanced(c.subs[c.iter], true).0]);
        SameObjects(c.subs[c.iter], true);
        CursorSame(c, d);
        if moved {
          rewind := false;
        } else {
          SetCursor(dat, dat.iter + 1, d);
          CursorSame(d, d.(iter := d.iter + 1));
          d := d.(iter := d.iter + 1);
        }
      } else {
        SetCursor(dat, dat.iter + 1, c);
        d := c.(iter := c.iter + 1);
        CursorSame(c, d);
      }
    }
    rv := dat.iter < |dat.datums|;
    if rv && rewind {
      Parts(d);
      Inside(d.subs[d.iter]);
      RewindCurrent(dat.datums[dat.iter], d, Footprints(d));
    }
  }

  method AdvanceCurrent(dat: Datum, ghost c: Cursor, ghost fps: seq<set<Datum>>) returns (moved: bool)
    requires fps == Footprints(c) && c.obj == dat && Separate(c) && Shows(c) && !c.onSelf && c.iter < |c.subs|
    modifies Footprint(c)`onSelf, Footprint(c)`iter
    ensures moved == Advanced(c.subs[c.iter], true).1
    ensures Shows(c.(subs := c.subs[c.iter := Advanced(c.subs[c.iter], true).0]))
    decreases c, 0
  {
    hide Separate, Footprint, Advanced;
    Parts(c);
    SameObjects(c.subs[c.iter], true);
    Inside(Advanced(c.subs[c.iter], true).0);
    moved := Advance(dat.datums[dat.iter], true, c.subs[c.iter]);
    forall i | 0 <= i < |c.subs| && i != c.iter
      ensures Shows(c.subs[i])
    {
      assert fps[i] !! fps[c.iter] && fps[i] == Footprint(c.subs[i]);
    }
  }

  /** `GetRecursive`; null stands for the inert datum. */
  method GetRecursive(dat: Datum, ghost c: Cursor) returns (d: Datum?)
    requires c.obj == dat && Shows(c)
    ensures d == ObjectAt(c, Position(c))
    decreases c
  {
    if dat.onSelf {
      d := dat;
    } else if dat.iter == |dat.datums| {
      d := null;
    } else {
      d := GetRecursive(dat.datums[dat.iter], c.subs[c.iter]);
    }
  }

  ghost function ObjectAt(c: Cursor, place: Place): Datum? {
    if place.At? then Follow(c, place.path) else null
  }

  ghost function Follow(c: Cursor, p: Path): Datum? {
    if p == [] then c.obj else if p[0] < |c.subs| then Follow(c.subs[p[0]], p[1..]) else null
  }

  lemma {:induction false} FollowSame(c: Cursor, recurse: bool, p: Path)
    ensures Follow(Advanced(c, recurse).0, p) == Follow(c, p)
    decreases c
  {
    var d := Advanced(c, recurse).0;
    if p != [] && p[0] < |c.subs| {
      var k := p[0];
      if !c.onSelf && recurse && k == c.iter {
        FollowSame(c.subs[k], true, p[1..]);
      }
      if d.subs[k] != c.subs[k] {
        RewoundFollow(c.subs[k], p[1..]);
      }
    }
  }

  lemma RewoundFollow(c: Cursor, p: Path)
    ensures Follow(Rewound(c), p) == Follow(c, p)
  {
  }

  /** `operator++`: the next datum of the tree in pre-order, null when there is none. */
  method Increment(dat: Datum, ghost c: Cursor, ghost nodes: set<Datum>) returns (d: Datum?)
    requires c.obj == dat && Separate(c) && Shows(c) && nodes == Footprint(c)
    modifies nodes`onSelf, nodes`iter
    ensures Shows(Advanced(c, true).0)
    ensures d == if Remaining(c) == [] then null else Follow(c, Remaining(c)[0])
  {
    hide Separate, Footprint, Remaining, Follow, Position;
    ghost var next := Advanced(c, true).0;
    AdvanceVisits(c);
    SameObjects(c, true);
    var moved := Advance(dat, true, c);
    if moved {
      FollowSame(c, true, Remaining(c)[0]);
      d := GetRecursive(dat, next);
    } else {
      d := null;
    }
  }
}
