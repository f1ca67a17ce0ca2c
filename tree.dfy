/**
 * A parsed HTML document as a forest of nodes, and the tree operations the cleaning
 * pipeline performs on it: `find` / `find_all` over the elements in document order,
 * `decompose` of every match or of the first match, and the list of text strings.
 */
module Tree {
  import opened Wrappers

  /** A node of a parsed document: a text string, or an element with its tag,
      its attributes and its children. */
  datatype Node =
    | Text(text: string)
    | Element(tag: string, attrs: map<string, string>, children: seq<Node>)

  /** A test on an element's tag and attributes, as passed to `find` and `find_all`. */
  type Selector = (string, map<string, string>) -> bool

  predicate Selects(sel: Selector, n: Node) {
    n.Element? && sel(n.tag, n.attrs)
  }

  /** The selector matching what either `p` or `q` matches. */
  function Either(p: Selector, q: Selector): Selector {
    (t: string, a: map<string, string>) => p(t, a) || q(t, a)
  }

  /** Every element of the forest, in document (pre-)order: what `find_all` walks. */
  function Elements(f: seq<Node>): seq<Node>
    decreases f
  {
    if f == [] then []
    else
      (match f[0]
       case Text(_) => []
       case Element(_, _, c) => [f[0]] + Elements(c))
      + Elements(f[1..])
  }

  /** Every text string of the forest, in document order. */
  function Leaves(f: seq<Node>): seq<string>
    decreases f
  {
    if f == [] then []
    else
      (match f[0]
       case Text(s) => [s]
       case Element(_, _, c) => Leaves(c))
      + Leaves(f[1..])
  }

  /** The forest after `decompose` of every element `sel` selects: a selected
      element disappears with everything below it. */
  function Prune(f: seq<Node>, sel: Selector): (r: seq<Node>)
    ensures forall n :: n in Elements(r) ==> !Selects(sel, n)
    decreases f
  {
    if f == [] then []
    else
      var rest := Prune(f[1..], sel);
      match f[0]
      case Text(_) =>
        ElementsConcat([f[0]], rest);
        [f[0]] + rest
      case Element(t, a, c) =>
        if sel(t, a) then rest
        else
          var kept := Element(t, a, Prune(c, sel));
          ElementsConcat([kept], rest);
          assert Elements([kept]) == [kept] + Elements(kept.children);
          [kept] + rest
  }

  /** Position of the first element of `es` that `sel` selects, or `|es|` if none. */
  function FirstIndex(es: seq<Node>, sel: Selector): (r: nat)
    ensures r <= |es|
    ensures forall j :: 0 <= j < r ==> !Selects(sel, es[j])
    ensures r < |es| ==> Selects(sel, es[r])
  {
    if es == [] then 0
    else if Selects(sel, es[0]) then 0
    else 1 + FirstIndex(es[1..], sel)
  }

  /** No element of the forest is selected by `sel`. */
  predicate NoneSelected(f: seq<Node>, sel: Selector) {
    forall n :: n in Elements(f) ==> !Selects(sel, n)
  }

  /** The first element of `es` that `sel` selects, if any. */
  function FirstIn(es: seq<Node>, sel: Selector): Option<Node> {
    var i := FirstIndex(es, sel);
    if i < |es| then Some(es[i]) else None
  }

  /** `find`: the first selected element in document order, if any. */
  function FindFirst(f: seq<Node>, sel: Selector): (r: Option<Node>)
    ensures r.Some? ==> Selects(sel, r.value) && r.value in Elements(f)
  {
    FirstIn(Elements(f), sel)
  }

  /** `find` finds nothing exactly when no element is selected; what it finds is selected
      and comes before every other selected element in document order. */
  lemma {:induction false} FindFirstSpec(f: seq<Node>, sel: Selector)
    ensures FindFirst(f, sel).None? <==> NoneSelected(f, sel)
    ensures FindFirst(f, sel).Some? ==>
      var n := FindFirst(f, sel).value;
      Selects(sel, n) &&
      exists i :: 0 <= i < |Elements(f)| && Elements(f)[i] == n &&
                  forall j :: 0 <= j < i ==> !Selects(sel, Elements(f)[j])
  {
    var es := Elements(f);
    var i := FirstIndex(es, sel);
    if i < |es| {
      assert es[i] in es;
    } else {
      forall n | n in es ensures !Selects(sel, n) {
        var j :| 0 <= j < |es| && es[j] == n;
      }
    }
  }

  /** The forest after `decompose` of the element `FindFirst` returns; when `find` finds
      nothing, the forest is unchanged. */
  function RemoveFirst(f: seq<Node>, sel: Selector): (r: seq<Node>)
    ensures FindFirst(f, sel).None? ==> r == f
    decreases f
  {
    if f == [] then []
    else
      match f[0]
      case Text(_) =>
        FindFirstTextCons(f, sel);
        [f[0]] + RemoveFirst(f[1..], sel)
      case Element(t, a, c) =>
        if sel(t, a) then
          FindFirstHead(f, sel);
          f[1..]
        else
          FindFirstElementCons(f, sel);
          if FindFirst(c, sel).Some? then [Element(t, a, RemoveFirst(c, sel))] + f[1..]
          else [f[0]] + RemoveFirst(f[1..], sel)
  }

  lemma {:induction false} ElementsConcat(a: seq<Node>, b: seq<Node>)
    ensures Elements(a + b) == Elements(a) + Elements(b)
    decreases a
  {
    if a != [] {
      assert (a + b)[0] == a[0];
      assert (a + b)[1..] == a[1..] + b;
      ElementsConcat(a[1..], b);
    } else {
      assert a + b == b;
    }
  }

  lemma {:induction false} LeavesConcat(a: seq<Node>, b: seq<Node>)
    ensures Leaves(a + b) == Leaves(a) + Leaves(b)
    decreases a
  {
    if a != [] {
      assert (a + b)[0] == a[0];
      assert (a + b)[1..] == a[1..] + b;
      LeavesConcat(a[1..], b);
    } else {
      assert a + b == b;
    }
  }

  /** Number of elements of the forest that `sel` selects, nested ones included. */
  function CountSelected(f: seq<Node>, sel: Selector): nat
    decreases f
  {
    if f == [] then 0
    else
      (match f[0]
       case Text(_) => 0
       case Element(t, a, c) => (if sel(t, a) then 1 else 0) + CountSelected(c, sel))
      + CountSelected(f[1..], sel)
  }

  /** Each text string of the forest in document order, paired with whether it lies
      below an element that `sel` selects (`under`: an ancestor of `f` already is). */
  function LeafRecords(f: seq<Node>, sel: Selector, under: bool): seq<(string, bool)>
    decreases f
  {
    if f == [] then []
    else
      (match f[0]
       case Text(s) => [(s, under)]
       case Element(t, a, c) => LeafRecords(c, sel, under || sel(t, a)))
      + LeafRecords(f[1..], sel, under)
  }

  /** The strings of the records that do not lie below a selected element, in order. */
  function Unhidden(rs: seq<(string, bool)>): seq<string> {
    if rs == [] then []
    else (if rs[0].1 then [] else [rs[0].0]) + Unhidden(rs[1..])
  }

  /** `whole` is `rest` with the block `part` inserted at position `i`. */
  predicate SplicedAt<T(==)>(whole: seq<T>, part: seq<T>, rest: seq<T>, i: int) {
    0 <= i <= |rest| && whole == rest[..i] + part + rest[i..]
  }

  lemma {:induction false} SpliceAppend<T>(whole: seq<T>, part: seq<T>, rest: seq<T>, y: seq<T>, i: int)
    requires SplicedAt(whole, part, rest, i)
    ensures SplicedAt(whole + y, part, rest + y, i)
  {
    assert (rest + y)[..i] == rest[..i];
    assert (rest + y)[i..] == rest[i..] + y;
  }

  lemma {:induction false} FirstIndexConcat(a: seq<Node>, b: seq<Node>, sel: Selector)
    ensures FirstIndex(a + b, sel) ==
      if FirstIndex(a, sel) < |a| then FirstIndex(a, sel) else |a| + FirstIndex(b, sel)
    decreases a
  {
    if a == [] {
      assert a + b == b;
    } else {
      assert (a + b)[0] == a[0];
      assert (a + b)[1..] == a[1..] + b;
      FirstIndexConcat(a[1..], b, sel);
    }
  }

  /** The first selected element of a concatenation is that of its first part, if any. */
  lemma FirstInConcat(a: seq<Node>, b: seq<Node>, sel: Selector)
    ensures FirstIn(a + b, sel) == if FirstIn(a, sel).Some? then FirstIn(a, sel) else FirstIn(b, sel)
  {
    FirstIndexConcat(a, b, sel);
    var ka, kb := FirstIndex(a, sel), FirstIndex(b, sel);
    if ka < |a| {
      assert (a + b)[ka] == a[ka];
    } else if kb < |b| {
      assert (a + b)[|a| + kb] == b[kb];
    }
  }

  /** An unselected element in front does not change the first selected one. */
  lemma FirstInSkip(x: Node, es: seq<Node>, sel: Selector)
    requires !Selects(sel, x)
    ensures FirstIn([x] + es, sel) == FirstIn(es, sel)
  {
    assert ([x] + es)[0] == x;
    assert ([x] + es)[1..] == es;
    var k := FirstIndex(es, sel);
    if k < |es| {
      assert ([x] + es)[1 + k] == es[k];
    }
  }

  /** `Elements` of a forest starting with an element. */
  lemma {:induction false} ElementsCons(n: Node, rest: seq<Node>)
    requires n.Element?
    ensures Elements([n] + rest) == [n] + Elements(n.children) + Elements(rest)
  {
    assert ([n] + rest)[0] == n;
    assert ([n] + rest)[1..] == rest;
  }

  /** `Leaves` of a forest starting with a given node. */
  lemma {:induction false} LeavesCons(n: Node, rest: seq<Node>)
    ensures Leaves([n] + rest) == (if n.Text? then [n.text] else Leaves(n.children)) + Leaves(rest)
  {
    assert ([n] + rest)[0] == n;
    assert ([n] + rest)[1..] == rest;
  }

  /** `CountSelected` of a forest starting with a given node. */
  lemma {:induction false} CountCons(n: Node, rest: seq<Node>, sel: Selector)
    ensures CountSelected([n] + rest, sel) ==
      (if n.Element? then (if sel(n.tag, n.attrs) then 1 else 0) + CountSelected(n.children, sel) else 0)
      + CountSelected(rest, sel)
  {
    assert ([n] + rest)[0] == n;
    assert ([n] + rest)[1..] == rest;
  }

  /** Pruning with no element selected changes nothing. */
  lemma {:induction false} PruneUnchanged(f: seq<Node>, sel: Selector)
    requires NoneSelected(f, sel)
    ensures Prune(f, sel) == f
    decreases f
  {
    if f != [] {
      match f[0]
      case Text(_) =>
        PruneUnchanged(f[1..], sel);
      case Element(t, a, c) =>
        assert f == [f[0]] + f[1..];
        ElementsCons(f[0], f[1..]);
        assert f[0] in Elements(f);
        assert NoneSelected(c, sel) && NoneSelected(f[1..], sel);
        PruneUnchanged(c, sel);
        PruneUnchanged(f[1..], sel);
    }
  }

  /** Two pruning passes in a row remove exactly what one pass with the combined selector removes. */
  lemma {:induction false} PruneCompose(f: seq<Node>, p: Selector, q: Selector)
    ensures Prune(Prune(f, p), q) == Prune(f, Either(p, q))
    decreases f
  {
    if f != [] {
      PruneCompose(f[1..], p, q);
      var rest := Prune(f[1..], p);
      match f[0]
      case Text(_) =>
        assert ([f[0]] + rest)[1..] == rest;
      case Element(t, a, c) =>
        if !p(t, a) {
          PruneCompose(c, p, q);
          assert ([Element(t, a, Prune(c, p))] + rest)[1..] == rest;
        }
    }
  }

  lemma {:induction false} LeafRecordsConcat(a: seq<Node>, b: seq<Node>, sel: Selector, under: bool)
    ensures LeafRecords(a + b, sel, under) == LeafRecords(a, sel, under) + LeafRecords(b, sel, under)
    decreases a
  {
    if a == [] {
      assert a + b == b;
    } else {
      assert (a + b)[0] == a[0];
      assert (a + b)[1..] == a[1..] + b;
      LeafRecordsConcat(a[1..], b, sel, under);
      var head := match a[0]
        case Text(s) => [(s, under)]
        case Element(t, x, c) => LeafRecords(c, sel, under || sel(t, x));
      assert LeafRecords(a, sel, under) == head + LeafRecords(a[1..], sel, under);
      assert LeafRecords(a + b, sel, under) == head + LeafRecords(a[1..] + b, sel, under);
      assert head + (LeafRecords(a[1..], sel, under) + LeafRecords(b, sel, under))
          == (head + LeafRecords(a[1..], sel, under)) + LeafRecords(b, sel, under);
    }
  }

  lemma {:induction false} UnhiddenConcat(x: seq<(string, bool)>, y: seq<(string, bool)>)
    ensures Unhidden(x + y) == Unhidden(x) + Unhidden(y)
  {
    if x == [] {
      assert x + y == y;
    } else {
      assert (x + y)[1..] == x[1..] + y;
      UnhiddenConcat(x[1..], y);
    }
  }

  /** Below a selected element nothing is kept. */
  lemma {:induction false} UnhiddenUnder(f: seq<Node>, sel: Selector)
    ensures Unhidden(LeafRecords(f, sel, true)) == []
    decreases f
  {
    if f != [] {
      UnhiddenUnder(f[1..], sel);
      var head := match f[0] case Text(s) => [(s, true)] case Element(t, a, c) => LeafRecords(c, sel, true);
      UnhiddenConcat(head, LeafRecords(f[1..], sel, true));
      match f[0]
      case Text(_) =>
      case Element(t, a, c) =>
        UnhiddenUnder(c, sel);
    }
  }

  /** The text strings left after pruning are exactly those that lie below no selected element,
      in their original order. */
  lemma {:induction false} PruneLeaves(f: seq<Node>, sel: Selector)
    ensures Leaves(Prune(f, sel)) == Unhidden(LeafRecords(f, sel, false))
    decreases f
  {
    if f != [] {
      PruneLeaves(f[1..], sel);
      var rest := Prune(f[1..], sel);
      match f[0]
      case Text(s) =>
        LeavesConcat([f[0]], rest);
        UnhiddenConcat([(s, false)], LeafRecords(f[1..], sel, false));
      case Element(t, a, c) =>
        UnhiddenConcat(LeafRecords(c, sel, sel(t, a)), LeafRecords(f[1..], sel, false));
        if sel(t, a) {
          UnhiddenUnder(c, sel);
        } else {
          PruneLeaves(c, sel);
          LeavesConcat([Element(t, a, Prune(c, sel))], rest);
        }
    }
  }

  /** When nothing is selected, removing the first match changes nothing. */
  lemma RemoveFirstNone(f: seq<Node>, sel: Selector)
    requires NoneSelected(f, sel)
    ensures RemoveFirst(f, sel) == f
  {
    FindFirstSpec(f, sel);
  }

  /** `find` skips a leading text string. */
  lemma FindFirstTextCons(f: seq<Node>, sel: Selector)
    requires f != [] && f[0].Text?
    ensures FindFirst(f, sel) == FindFirst(f[1..], sel)
  {
    assert Elements(f) == Elements(f[1..]);
  }

  /** `find` returns a leading element that `sel` selects. */
  lemma FindFirstHead(f: seq<Node>, sel: Selector)
    requires f != [] && f[0].Element? && sel(f[0].tag, f[0].attrs)
    ensures FindFirst(f, sel) == Some(f[0])
  {
    assert Elements(f)[0] == f[0];
  }

  /** `find` on a forest whose first node is an unselected element: it looks below that
      element first, then after it. */
  lemma {:induction false} FindFirstElementCons(f: seq<Node>, sel: Selector)
    requires f != [] && f[0].Element? && !sel(f[0].tag, f[0].attrs)
    ensures FindFirst(f, sel) ==
      if FindFirst(f[0].children, sel).Some? then FindFirst(f[0].children, sel) else FindFirst(f[1..], sel)
  {
    var ec, er := Elements(f[0].children), Elements(f[1..]);
    assert f == [f[0]] + f[1..];
    ElementsCons(f[0], f[1..]);
    assert Elements(f) == [f[0]] + (ec + er);
    FirstInSkip(f[0], ec + er, sel);
    FirstInConcat(ec, er, sel);
  }

  /** Position of the first record flagged `true`, or `|rs|` if there is none. */
  function FirstFlagged(rs: seq<(string, bool)>): (r: nat)
    ensures r <= |rs|
    ensures forall j :: 0 <= j < r ==> !rs[j].1
    ensures r < |rs| ==> rs[r].1
  {
    if rs == [] then 0
    else if rs[0].1 then 0
    else 1 + FirstFlagged(rs[1..])
  }

  /** Where `find`'s result starts in the document's list of strings: the number of strings
      before the first one that lies below a `sel`-selected element. */
  function CutPosition(f: seq<Node>, sel: Selector): nat {
    FirstFlagged(LeafRecords(f, sel, false))
  }

  /** The records of one node (`under`: an ancestor of it is already selected). */
  function NodeRecords(x: Node, q: Selector, u: bool): seq<(string, bool)> {
    if x.Text? then [(x.text, u)] else LeafRecords(x.children, q, u || q(x.tag, x.attrs))
  }

  /** The strings of a sequence of records, flags dropped. */
  function Strings(rs: seq<(string, bool)>): seq<string> {
    seq(|rs|, k requires 0 <= k < |rs| => rs[k].0)
  }

  /** Removing the first match `n` cuts exactly `n`'s text out of the document, as one block
      starting where `n`'s text starts, and exactly the selected elements in `n`'s subtree:
      no other element goes. */
  lemma RemoveFirstSome(f: seq<Node>, sel: Selector, n: Node)
    requires FindFirst(f, sel) == Some(n)
    ensures SplicedAt(Leaves(f), Leaves([n]), Leaves(RemoveFirst(f, sel)), CutPosition(f, sel))
    ensures CountSelected(f, sel) == CountSelected(RemoveFirst(f, sel), sel) + CountSelected([n], sel)
  {
    var r := RemoveFirst(f, sel);
    RemoveFirstFrame(f, sel, n, sel, false);
    var v :| SplicedAt(LeafRecords(f, sel, false), LeafRecords([n], sel, v), LeafRecords(r, sel, false), CutPosition(f, sel));
    SpliceStrings(LeafRecords(f, sel, false), LeafRecords([n], sel, v), LeafRecords(r, sel, false), CutPosition(f, sel));
    RecordStrings(f, sel, false);
    RecordStrings([n], sel, v);
    RecordStrings(r, sel, false);
  }

  /** Removing the first match `n` leaves the rest of the document in place, as any other
      selector `q` sees it: the text strings of `n`, with whether each lies below a
      `q`-selected element, are cut out as one block at the position where `n`'s text
      starts, and every other string keeps its position and its flag; the `q`-selected
      elements lost are exactly those of `n`'s subtree. */
  lemma {:induction false} RemoveFirstFrame(f: seq<Node>, sel: Selector, n: Node, q: Selector, u: bool)
    requires FindFirst(f, sel) == Some(n)
    ensures exists v :: SplicedAt(LeafRecords(f, q, u), LeafRecords([n], q, v), LeafRecords(RemoveFirst(f, sel), q, u),
                                  CutPosition(f, sel))
    ensures CountSelected(f, q) == CountSelected(RemoveFirst(f, sel), q) + CountSelected([n], q)
    decreases f, 0
  {
    assert f != [];
    var x, rest := f[0], f[1..];
    assert f == [x] + rest;
    match x
    case Text(_) =>
      FindFirstTextCons(f, sel);
      assert RemoveFirst(f, sel) == [x] + RemoveFirst(rest, sel);
      FrameAfter(x, rest, sel, n, q, u);
    case Element(t, a, c) =>
      if sel(t, a) {
        FindFirstHead(f, sel);
        FrameAtHead(f, sel, q, u);
      } else {
        FindFirstElementCons(f, sel);
        if FindFirst(c, sel).Some? {
          var w := u || q(t, a);
          RemoveFirstFrame(c, sel, n, q, w);
          var rc := RemoveFirst(c, sel);
          assert RemoveFirst(f, sel) == [Element(t, a, rc)] + rest;
          var v :| SplicedAt(LeafRecords(c, q, w), LeafRecords([n], q, v), LeafRecords(rc, q, w), CutPosition(c, sel));
          FrameInside(x, rc, rest, n, sel, q, u, v);
        } else {
          assert RemoveFirst(f, sel) == [x] + RemoveFirst(rest, sel);
          FrameAfter(x, rest, sel, n, q, u);
        }
      }
  }

  /** The records left after removing the first match `n` are the document's records with
      the block of `n`'s strings taken out where `n`'s text starts. */
  lemma RemoveFirstCut(f: seq<Node>, sel: Selector, n: Node, q: Selector, u: bool)
    requires FindFirst(f, sel) == Some(n)
    ensures var records, i := LeafRecords(f, q, u), CutPosition(f, sel);
      i + |Leaves([n])| <= |records| &&
      LeafRecords(RemoveFirst(f, sel), q, u) == records[..i] + records[i + |Leaves([n])|..]
  {
    RemoveFirstFrame(f, sel, n, q, u);
    var records, i, rs := LeafRecords(f, q, u), CutPosition(f, sel), LeafRecords(RemoveFirst(f, sel), q, u);
    var v :| SplicedAt(records, LeafRecords([n], q, v), rs, i);
    RecordStrings([n], q, v);
    SpliceCut(records, LeafRecords([n], q, v), rs, i);
  }

  /** Case of `RemoveFirstFrame`: the match lies after the forest's first node `x`, which stays. */
  lemma {:induction false} FrameAfter(x: Node, rest: seq<Node>, sel: Selector, n: Node, q: Selector, u: bool)
    requires FindFirst(rest, sel) == Some(n)
    requires x.Text? || (!sel(x.tag, x.attrs) && FindFirst(x.children, sel).None?)
    ensures exists v :: SplicedAt(LeafRecords([x] + rest, q, u), LeafRecords([n], q, v),
                                  LeafRecords([x] + RemoveFirst(rest, sel), q, u), CutPosition([x] + rest, sel))
    ensures CountSelected([x] + rest, q) == CountSelected([x] + RemoveFirst(rest, sel), q) + CountSelected([n], q)
    decreases rest, 1
  {
    RemoveFirstFrame(rest, sel, n, q, u);
    var r' := RemoveFirst(rest, sel);
    var v :| SplicedAt(LeafRecords(rest, q, u), LeafRecords([n], q, v), LeafRecords(r', q, u), CutPosition(rest, sel));
    FrameBehind(x, rest, r', n, sel, q, u, v);
  }

  /** A removal made after a node that stays in place: the cut moves by that node's text,
      and the node's own elements count on both sides. */
  lemma FrameBehind(x: Node, rest: seq<Node>, r': seq<Node>, n: Node, sel: Selector, q: Selector, u: bool, v: bool)
    requires x.Text? || (!sel(x.tag, x.attrs) && FindFirst(x.children, sel).None?)
    requires SplicedAt(LeafRecords(rest, q, u), LeafRecords([n], q, v), LeafRecords(r', q, u), CutPosition(rest, sel))
    requires CountSelected(rest, q) == CountSelected(r', q) + CountSelected([n], q)
    ensures SplicedAt(LeafRecords([x] + rest, q, u), LeafRecords([n], q, v), LeafRecords([x] + r', q, u),
                      CutPosition([x] + rest, sel))
    ensures CountSelected([x] + rest, q) == CountSelected([x] + r', q) + CountSelected([n], q)
  {
    RecordsCons(x, rest, q, u);
    RecordsCons(x, r', q, u);
    PositionAfter(x, rest, sel);
    NodeRecordsLength(x, q, u, sel, false);
    SpliceShift(NodeRecords(x, q, u), LeafRecords(rest, q, u), LeafRecords([n], q, v), LeafRecords(r', q, u),
                CutPosition(rest, sel), LeafRecords([x] + rest, q, u), LeafRecords([x] + r', q, u),
                CutPosition([x] + rest, sel));
    CountBehind(x, rest, r', n, q);
  }

  lemma CountBehind(x: Node, rest: seq<Node>, r': seq<Node>, n: Node, q: Selector)
    requires CountSelected(rest, q) == CountSelected(r', q) + CountSelected([n], q)
    ensures CountSelected([x] + rest, q) == CountSelected([x] + r', q) + CountSelected([n], q)
  {
    CountCons(x, rest, q);
    CountCons(x, r', q);
  }

  /** Case of `RemoveFirstFrame`: the forest starts with the match. */
  lemma FrameAtHead(f: seq<Node>, sel: Selector, q: Selector, u: bool)
    requires f != [] && f[0].Element? && sel(f[0].tag, f[0].attrs)
    ensures SplicedAt(LeafRecords(f, q, u), LeafRecords([f[0]], q, u), LeafRecords(RemoveFirst(f, sel), q, u),
                      CutPosition(f, sel))
    ensures CountSelected(f, q) == CountSelected(RemoveFirst(f, sel), q) + CountSelected([f[0]], q)
  {
    var n, rest := f[0], f[1..];
    assert RemoveFirst(f, sel) == rest;
    var w := u || q(n.tag, n.attrs);
    RecordsOfOne(n, q, u);
    assert LeafRecords(f, q, u) == LeafRecords(n.children, q, w) + LeafRecords(rest, q, u);
    SpliceFront(LeafRecords(n.children, q, w), LeafRecords(rest, q, u));
    PositionAtHead(f, sel);
    if LeafRecords(n.children, sel, true) == [] {
      RecordsLength(n.children, q, w, sel, true);
      RecordsLength(f, q, u, sel, false);
      SpliceMove(LeafRecords(f, q, u), LeafRecords([n], q, u), LeafRecords(rest, q, u), 0, CutPosition(f, sel));
    }
    CountOfOne(n, q);
  }

  /** Case of `RemoveFirstFrame`: the match lies below the forest's first element, which
      stays with its children `rc` after the removal. */
  lemma FrameInside(x: Node, rc: seq<Node>, rest: seq<Node>, n: Node, sel: Selector, q: Selector, u: bool, v: bool)
    requires x.Element? && !sel(x.tag, x.attrs)
    requires SplicedAt(LeafRecords(x.children, q, u || q(x.tag, x.attrs)), LeafRecords([n], q, v),
                       LeafRecords(rc, q, u || q(x.tag, x.attrs)), CutPosition(x.children, sel))
    requires CountSelected(x.children, q) == CountSelected(rc, q) + CountSelected([n], q)
    ensures SplicedAt(LeafRecords([x] + rest, q, u), LeafRecords([n], q, v),
                      LeafRecords([Element(x.tag, x.attrs, rc)] + rest, q, u), CutPosition([x] + rest, sel))
    ensures CountSelected([x] + rest, q) == CountSelected([Element(x.tag, x.attrs, rc)] + rest, q) + CountSelected([n], q)
  {
    var kept := Element(x.tag, x.attrs, rc);
    var w := u || q(x.tag, x.attrs);
    var i := CutPosition(x.children, sel);
    var whole, part, after := LeafRecords([x] + rest, q, u), LeafRecords([n], q, v), LeafRecords([kept] + rest, q, u);
    RecordsCons(x, rest, q, u);
    RecordsCons(kept, rest, q, u);
    SpliceAppend(LeafRecords(x.children, q, w), part, LeafRecords(rc, q, w), LeafRecords(rest, q, u), i);
    PositionInside(x, rest, sel);
    RecordsLength(x.children, q, w, sel, false);
    if i == |LeafRecords(x.children, sel, false)| {
      RecordsLength([x] + rest, q, u, sel, false);
      SpliceMove(whole, part, after, i, CutPosition([x] + rest, sel));
    }
    CountCons(x, rest, q);
    CountCons(kept, rest, q);
  }

  /** The records of a forest starting with a given node. */
  lemma {:induction false} RecordsCons(x: Node, rest: seq<Node>, q: Selector, u: bool)
    ensures LeafRecords([x] + rest, q, u) == NodeRecords(x, q, u) + LeafRecords(rest, q, u)
  {
    assert ([x] + rest)[0] == x;
    assert ([x] + rest)[1..] == rest;
  }

  /** The records of a one-element forest are those of the element's children. */
  lemma RecordsOfOne(n: Node, q: Selector, u: bool)
    requires n.Element?
    ensures LeafRecords([n], q, u) == LeafRecords(n.children, q, u || q(n.tag, n.attrs))
  {
    assert [n][1..] == [];
  }

  /** The selected elements of a one-element forest. */
  lemma CountOfOne(n: Node, q: Selector)
    requires n.Element?
    ensures CountSelected([n], q) == (if q(n.tag, n.attrs) then 1 else 0) + CountSelected(n.children, q)
  {
    assert [n][1..] == [];
  }

  /** Whatever the selector and the flag, the records hold the document's strings in order. */
  lemma {:induction false} RecordStrings(f: seq<Node>, q: Selector, u: bool)
    ensures Strings(LeafRecords(f, q, u)) == Leaves(f)
    decreases f
  {
    if f != [] {
      RecordStrings(f[1..], q, u);
      match f[0]
      case Text(s) =>
        StringsConcat([(s, u)], LeafRecords(f[1..], q, u));
      case Element(t, a, c) =>
        RecordStrings(c, q, u || q(t, a));
        StringsConcat(LeafRecords(c, q, u || q(t, a)), LeafRecords(f[1..], q, u));
    }
  }

  lemma RecordsLength(f: seq<Node>, q: Selector, u: bool, p: Selector, w: bool)
    ensures |LeafRecords(f, q, u)| == |LeafRecords(f, p, w)|
  {
    RecordStrings(f, q, u);
    RecordStrings(f, p, w);
  }

  lemma NodeRecordsLength(x: Node, q: Selector, u: bool, p: Selector, w: bool)
    ensures |NodeRecords(x, q, u)| == |NodeRecords(x, p, w)|
  {
    if x.Element? {
      RecordsLength(x.children, q, u || q(x.tag, x.attrs), p, w || p(x.tag, x.attrs));
    }
  }

  lemma StringsConcat(a: seq<(string, bool)>, b: seq<(string, bool)>)
    ensures Strings(a + b) == Strings(a) + Strings(b)
  {
  }

  /** Dropping the flags keeps a splice. */
  lemma SpliceStrings(whole: seq<(string, bool)>, part: seq<(string, bool)>, rest: seq<(string, bool)>, i: int)
    requires SplicedAt(whole, part, rest, i)
    ensures SplicedAt(Strings(whole), Strings(part), Strings(rest), i)
  {
    StringsConcat(rest[..i], part);
    StringsConcat(rest[..i] + part, rest[i..]);
    assert Strings(rest[..i]) == Strings(rest)[..i];
    assert Strings(rest[i..]) == Strings(rest)[i..];
  }

  /** A splice behind a block `pre` that stays in place moves by the length of `pre`. */
  lemma SpliceShift<T>(pre: seq<T>, whole: seq<T>, part: seq<T>, rest: seq<T>, i: int, whole': seq<T>, rest': seq<T>, j: int)
    requires SplicedAt(whole, part, rest, i)
    requires whole' == pre + whole && rest' == pre + rest && j == |pre| + i
    ensures SplicedAt(whole', part, rest', j)
  {
    assert (pre + rest)[..|pre| + i] == pre + rest[..i];
    assert (pre + rest)[|pre| + i..] == rest[i..];
  }

  /** A splice fixes the rest: it is the whole without the block. */
  lemma SpliceCut<T>(whole: seq<T>, part: seq<T>, rest: seq<T>, i: int)
    requires SplicedAt(whole, part, rest, i)
    ensures i + |part| <= |whole| && rest == whole[..i] + whole[i + |part|..]
  {
    assert whole[..i] == rest[..i];
    assert whole[i + |part|..] == rest[i..];
  }

  /** A block in front is a splice at position 0. */
  lemma SpliceFront<T>(part: seq<T>, rest: seq<T>)
    ensures SplicedAt(part + rest, part, rest, 0)
  {
    assert rest[..0] == [] && rest[0..] == rest;
  }

  /** An empty block is spliced in at any position. */
  lemma SpliceMove<T>(whole: seq<T>, part: seq<T>, rest: seq<T>, i: int, j: int)
    requires SplicedAt(whole, part, rest, i)
    requires i == j || (|part| == 0 && 0 <= j <= |rest|)
    ensures SplicedAt(whole, part, rest, j)
  {
    if i != j {
      assert part == [];
      assert whole == rest[..i] + rest[i..] == rest;
      assert rest == rest[..j] + part + rest[j..];
    }
  }

  lemma {:induction false} FirstFlaggedConcat(a: seq<(string, bool)>, b: seq<(string, bool)>)
    ensures FirstFlagged(a + b) == if FirstFlagged(a) < |a| then FirstFlagged(a) else |a| + FirstFlagged(b)
    decreases a
  {
    if a == [] {
      assert a + b == b;
    } else {
      assert (a + b)[0] == a[0];
      assert (a + b)[1..] == a[1..] + b;
      FirstFlaggedConcat(a[1..], b);
    }
  }

  /** With nothing selected, no record is flagged. */
  lemma {:induction false} RecordsUnflagged(f: seq<Node>, sel: Selector)
    requires NoneSelected(f, sel)
    ensures FirstFlagged(LeafRecords(f, sel, false)) == |LeafRecords(f, sel, false)|
    decreases f
  {
    if f != [] {
      var x, rest := f[0], f[1..];
      assert f == [x] + rest;
      RecordsCons(x, rest, sel, false);
      if x.Element? {
        ElementsCons(x, rest);
        assert x in Elements(f);
        assert NoneSelected(x.children, sel) && NoneSelected(rest, sel);
        RecordsUnflagged(x.children, sel);
      } else {
        ElementsTextCons(x, rest);
        assert [(x.text, false)][1..] == [];
      }
      RecordsUnflagged(rest, sel);
      FirstFlaggedConcat(NodeRecords(x, sel, false), LeafRecords(rest, sel, false));
    }
  }

  lemma ElementsTextCons(x: Node, rest: seq<Node>)
    requires x.Text?
    ensures Elements([x] + rest) == Elements(rest)
  {
    assert ([x] + rest)[1..] == rest;
  }

  /** Below a selected element every record is flagged. */
  lemma {:induction false} FlaggedUnder(f: seq<Node>, sel: Selector)
    ensures forall k :: 0 <= k < |LeafRecords(f, sel, true)| ==> LeafRecords(f, sel, true)[k].1
    decreases f
  {
    if f != [] {
      FlaggedUnder(f[1..], sel);
      match f[0]
      case Text(_) =>
      case Element(t, a, c) =>
        FlaggedUnder(c, sel);
    }
  }

  /** The cut position after a leading node that holds no match. */
  lemma PositionAfter(x: Node, rest: seq<Node>, sel: Selector)
    requires x.Text? || (!sel(x.tag, x.attrs) && FindFirst(x.children, sel).None?)
    ensures CutPosition([x] + rest, sel) == |NodeRecords(x, sel, false)| + CutPosition(rest, sel)
  {
    RecordsCons(x, rest, sel, false);
    if x.Element? {
      FindFirstSpec(x.children, sel);
      RecordsUnflagged(x.children, sel);
    } else {
      assert [(x.text, false)][1..] == [];
    }
    FirstFlaggedConcat(NodeRecords(x, sel, false), LeafRecords(rest, sel, false));
  }

  /** The cut position when a leading unselected element holds the match. */
  lemma PositionInside(x: Node, rest: seq<Node>, sel: Selector)
    requires x.Element? && !sel(x.tag, x.attrs)
    ensures CutPosition([x] + rest, sel) ==
      if CutPosition(x.children, sel) < |LeafRecords(x.children, sel, false)| then CutPosition(x.children, sel)
      else |LeafRecords(x.children, sel, false)| + CutPosition(rest, sel)
  {
    RecordsCons(x, rest, sel, false);
    FirstFlaggedConcat(LeafRecords(x.children, sel, false), LeafRecords(rest, sel, false));
  }

  /** The cut position is 0 when the forest starts with a match that holds text. */
  lemma PositionAtHead(f: seq<Node>, sel: Selector)
    requires f != [] && f[0].Element? && sel(f[0].tag, f[0].attrs)
    ensures LeafRecords(f[0].children, sel, true) != [] ==> CutPosition(f, sel) == 0
  {
    assert f == [f[0]] + f[1..];
    RecordsCons(f[0], f[1..], sel, false);
    FlaggedUnder(f[0].children, sel);
  }
}
