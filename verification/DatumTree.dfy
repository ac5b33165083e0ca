/** The datum of cpDatum.cpp as an object: attributes, sub-data, and the embedded cursor. */
module DatumTree {
  import opened NativeFormat

  class Datum {
    var attribs: Attribs
    var datums: seq<Datum>
    /** The cursor: on the datum itself, or on a sub-datum; |datums| stands for the end. */
    var onSelf: bool
    var iter: nat

    constructor (name: CString)
      ensures attribs == Named(name) && datums == [] && onSelf && iter == 0
    {
      attribs := Named(name);
      datums, onSelf, iter := [], true, 0;
    }

    /** `Clear`: everything goes but the name. */
    method Clear(text: Variant -> CString)
      modifies this
      ensures attribs == Named(NameOf(old(attribs), text)) && datums == [] && onSelf && iter == 0
      ensures 1 !in old(attribs) ==> attribs == map[]
      ensures 1 in old(attribs) ==>
        var name := if old(attribs)[1].Str? then old(attribs)[1].s else text(old(attribs)[1]);
        attribs == if name == [] then map[] else map[1 := Str(name)]
    {
      attribs := Named(NameOf(attribs, text));
      datums, onSelf, iter := [], true, 0;
    }

    /** `Add` without a name: a new last sub-datum, which becomes current. */
    method Add()
      modifies this
      ensures |datums| == |old(datums)| + 1 && datums[..|old(datums)|] == old(datums)
      ensures var d := datums[|datums| - 1]; fresh(d) && d.attribs == map[] && d.datums == [] && d.onSelf && d.iter == 0
      ensures !onSelf && iter == |old(datums)| && attribs == old(attribs)
    {
      var d := new Datum([]);
      datums := datums + [d];
      iter := |datums| - 1;
      onSelf := false;
    }

    /** The current datum; null stands for the inert one. */
    function Get(): (d: Datum?)
      reads this
    {
      if onSelf then this else if iter < |datums| then datums[iter] else null
    }
  }

  /** `NameGet`; the conversion of other values to text is a parameter. */
  function NameOf(m: Attribs, text: Variant -> CString): CString {
    if ATTR_NAME !in m then []
    else if m[ATTR_NAME].Str? then m[ATTR_NAME].s
    else text(m[ATTR_NAME])
  }

  /** The object d holds the tree t, all in nodes. */
  ghost predicate Denotes(d: Datum, t: Tree, nodes: set<Datum>)
    reads nodes
    decreases t
  {
    && d in nodes && d.attribs == t.attribs && |d.datums| == |t.subs|
    && forall i :: 0 <= i < |t.subs| ==> d.datums[i] in nodes && Denotes(d.datums[i], t.subs[i], nodes)
  }

  lemma {:induction false} DenotesMore(d: Datum, t: Tree, nodes: set<Datum>, more: set<Datum>)
    requires Denotes(d, t, nodes) && nodes <= more
    ensures Denotes(d, t, more)
    decreases t
  {
    forall i | 0 <= i < |t.subs|
      ensures d.datums[i] in more && Denotes(d.datums[i], t.subs[i], more)
    {
      DenotesMore(d.datums[i], t.subs[i], nodes, more);
    }
  }

  // -------------------------------------------------------------------------
  // Trees under construction

  /** d holds the open datum f: its finished sub-data are in `done`, the open one comes last. */
  ghost predicate OpenAt(d: Datum, f: Tree, inner: seq<Datum>, done: set<Datum>)
    reads d, done
  {
    && d !in done && d.attribs == f.attribs && |d.datums| == |f.subs| + |inner|
    && d.datums[|f.subs|..] == inner
    && forall i :: 0 <= i < |f.subs| ==> d.datums[i] in done && Denotes(d.datums[i], f.subs[i], done)
  }

  /** A stack of open data, the innermost first. */
  ghost predicate Nested(inner: seq<Datum>, stack: seq<Datum>, frames: seq<Tree>, done: set<Datum>)
    reads stack, done
    decreases |stack|
  {
    if stack == [] || frames == [] then stack == [] && frames == []
    else
      && OpenAt(stack[0], frames[0], inner, done)
      && stack[0] !in stack[1..]
      && Nested([stack[0]], stack[1..], frames[1..], done)
  }

  lemma OpenAtMore(d: Datum, f: Tree, inner: seq<Datum>, done: set<Datum>, more: set<Datum>)
    requires OpenAt(d, f, inner, done) && done <= more && d !in more
    ensures OpenAt(d, f, inner, more)
  {
    forall i | 0 <= i < |f.subs|
      ensures d.datums[i] in more && Denotes(d.datums[i], f.subs[i], more)
    {
      DenotesMore(d.datums[i], f.subs[i], done, more);
    }
  }

  lemma {:induction false} OpenMore(inner: seq<Datum>, stack: seq<Datum>, frames: seq<Tree>, done: set<Datum>, more: set<Datum>)
    requires Nested(inner, stack, frames, done) && done <= more && forall d :: d in stack ==> d !in more - done
    ensures Nested(inner, stack, frames, more)
    decreases |stack|
  {
    hide Denotes;
    if stack != [] {
      assert stack[0] in stack;
      OpenAtMore(stack[0], frames[0], inner, done, more);
      OpenMore([stack[0]], stack[1..], frames[1..], done, more);
    }
  }

  /** A finished datum joins the sub-data of the one around it. */
  lemma OpenPopped(stack: seq<Datum>, frames: seq<Tree>, done: set<Datum>)
    requires |stack| > 1 && Nested([], stack, frames, done)
    ensures frames != [] && Nested([], stack[1..], Popped(frames), done + {stack[0]})
  {
    hide Denotes;
    var d, e, more := stack[0], stack[1], done + {stack[0]};
    var f, g := frames[0], frames[1];
    assert stack[1..][0] == e && frames[1..][0] == g;
    assert e in stack[1..];
    Finished(d, f, done);
    var joined := g.(subs := g.subs + [f]);
    JoinedAt(d, e, f, g, done);
    assert stack[1..][1..] == stack[2..] && frames[1..][1..] == frames[2..];
    assert forall x :: x in stack[2..] ==> x in stack[1..];
    OpenMore([e], stack[2..], frames[2..], done, more);
    assert Popped(frames) == [joined] + frames[2..];
    assert Popped(frames)[1..] == frames[2..];
  }

  lemma Finished(d: Datum, f: Tree, done: set<Datum>)
    requires OpenAt(d, f, [], done)
    ensures Denotes(d, f, done + {d})
  {
    forall i | 0 <= i < |f.subs|
      ensures Denotes(d.datums[i], f.subs[i], done + {d})
    {
      DenotesMore(d.datums[i], f.subs[i], done, done + {d});
    }
  }

  lemma JoinedAt(d: Datum, e: Datum, f: Tree, g: Tree, done: set<Datum>)
    requires OpenAt(e, g, [d], done) && Denotes(d, f, done + {d}) && d != e
    ensures OpenAt(e, g.(subs := g.subs + [f]), [], done + {d})
  {
    hide Denotes;
    OpenAtMore(e, g, [d], done, done + {d});
    var n := |g.subs|;
    assert e.datums[n] == e.datums[n..][0] == d;
  }

  /** When decoding stops, the outermost datum holds everything. */
  lemma {:induction false} OpenCollapses(stack: seq<Datum>, frames: seq<Tree>, done: set<Datum>) returns (nodes: set<Datum>)
    requires stack != [] && Nested([], stack, frames, done)
    ensures frames != [] && Denotes(stack[|stack| - 1], Collapse(frames), nodes)
    ensures nodes == done + set d | d in stack
    decreases |stack|
  {
    hide Nested, OpenAt, Denotes, Popped;
    nodes := done + set d | d in stack;
    if |stack| == 1 {
      LastOpen(stack, frames, done);
    } else {
      OpenPopped(stack, frames, done);
      SameCount([], stack, frames, done);
      var rest := OpenCollapses(stack[1..], Popped(frames), done + {stack[0]});
      assert stack == [stack[0]] + stack[1..];
      assert rest == nodes;
    }
  }

  lemma LastOpen(stack: seq<Datum>, frames: seq<Tree>, done: set<Datum>)
    requires |stack| == 1 && Nested([], stack, frames, done)
    ensures |frames| == 1 && Denotes(stack[0], frames[0], done + set d | d in stack)
  {
    Finished(stack[0], frames[0], done);
    assert (set d | d in stack) == {stack[0]};
  }

  lemma {:induction false} SameCount(inner: seq<Datum>, stack: seq<Datum>, frames: seq<Tree>, done: set<Datum>)
    requires Nested(inner, stack, frames, done)
    ensures |stack| == |frames|
    decreases |stack|
  {
    hide OpenAt;
    if stack != [] && frames != [] {
      SameCount([stack[0]], stack[1..], frames[1..], done);
    }
  }
}
