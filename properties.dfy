/** A declarative description of the translated body, independent of the
    loop: keep the lines that are not empty after comment stripping,
    render each to one line (the first failure stops everything), and put
    the loop wrapper right after the first kept line containing `jmp`,
    closing it at the end. The loop's own specification `Body` is proved
    equal to it, and the properties of the body are read off it. */
module Properties {
  import opened Strings
  import opened Translator

  /** `f` applied to every line. */
  function Mapped(f: string -> string, lines: seq<string>): (r: seq<string>)
    ensures |r| == |lines|
    ensures forall i :: 0 <= i < |lines| ==> r[i] == f(lines[i])
  {
    seq(|lines|, i requires 0 <= i < |lines| => f(lines[i]))
  }

  /** Every input line with its comment stripped. */
  function Stripped(lines: seq<string>): seq<string> {
    Mapped(StripComment, lines)
  }

  /** The non-empty strings of `ss`, in order. */
  function NonEmpty(ss: seq<string>): (r: seq<string>)
    ensures |r| <= |ss|
    ensures forall k :: 0 <= k < |r| ==> r[k] != [] && r[k] in ss
    decreases |ss|
  {
    if ss == [] then []
    else NonEmpty(ss[..|ss| - 1]) + (if ss[|ss| - 1] == [] then [] else [ss[|ss| - 1]])
  }

  /** The stripped forms of the lines that are not empty once their
      comment is stripped, in input order. */
  function Kept(lines: seq<string>): seq<string> {
    NonEmpty(Stripped(lines))
  }

  /** `g` applied to every element, or the error of the first element on
      which it fails. */
  function Traverse(g: string -> Result<string>, xs: seq<string>): (r: Result<seq<string>>)
    ensures r.Ok? ==> |r.value| == |xs|
    ensures r.Ok? ==> forall k :: 0 <= k < |xs| ==> g(xs[k]) == Ok(r.value[k])
    ensures r.Ok? <==> forall k :: 0 <= k < |xs| ==> g(xs[k]).Ok?
    decreases |xs|
  {
    if xs == [] then Ok([])
    else
      match Traverse(g, xs[..|xs| - 1])
      case Err(e) => Err(e)
      case Ok(outs) =>
        match g(xs[|xs| - 1])
        case Err(e) => Err(e)
        case Ok(out) => Ok(outs + [out])
  }

  /** The rendering of every kept line, or the error of the first one
      that fails. */
  function RenderAll(kept: seq<string>): Result<seq<string>> {
    Traverse(RenderLine, kept)
  }

  /** The position of the first kept line containing `jmp`, if any. */
  function FirstJmp(kept: seq<string>): (j: Option<nat>)
    ensures j.Some? ==> j.value < |kept| && Contains(kept[j.value], "jmp")
    ensures j.Some? ==> forall i :: 0 <= i < j.value ==> !Contains(kept[i], "jmp")
    ensures j.None? ==> forall i :: 0 <= i < |kept| ==> !Contains(kept[i], "jmp")
    decreases |kept|
  {
    if kept == [] then None
    else
      match FirstJmp(kept[..|kept| - 1])
      case Some(i) => Some(i)
      case None =>
        if Contains(kept[|kept| - 1], "jmp") then Some(|kept| - 1) else None
  }

  /** The rendered lines with the wrapper opened after line `j`. */
  function Opened(outs: seq<string>, j: Option<nat>): seq<string>
    requires j.Some? ==> j.value < |outs|
  {
    match j
    case None => outs
    case Some(i) => outs[..i + 1] + [WhileOpen] + outs[i + 1..]
  }

  /** The rendered lines with the wrapper opened after line `j` and
      closed after the last line. */
  function Wrap(outs: seq<string>, j: Option<nat>): seq<string>
    requires j.Some? ==> j.value < |outs|
  {
    Opened(outs, j) + (if j.Some? then [WhileClose] else [])
  }

  /** The body as the reference describes it. */
  function Reference(lines: seq<string>): Result<seq<string>> {
    var kept := Kept(lines);
    match RenderAll(kept)
    case Err(e) => Err(e)
    case Ok(outs) => Ok(Wrap(outs, FirstJmp(kept)))
  }

  /** Appending a line after the wrapper was opened keeps it in place. */
  lemma OpenedAppend(outs: seq<string>, j: Option<nat>, out: string)
    requires j.Some? ==> j.value < |outs|
    ensures Opened(outs + [out], j) == Opened(outs, j) + [out]
  {
    if j.Some? {
      var i := j.value;
      assert (outs + [out])[..i + 1] == outs[..i + 1];
      assert (outs + [out])[i + 1..] == outs[i + 1..] + [out];
    }
  }

  /** The loop state the reference predicts after the kept lines `kept`:
      the wrapper opened but not yet closed. */
  function State(kept: seq<string>): Result<Acc> {
    match RenderAll(kept)
    case Err(e) => Err(e)
    case Ok(outs) => Ok(Acc(Opened(outs, FirstJmp(kept)), FirstJmp(kept).Some?))
  }

  /** One more kept line moves the predicted state exactly as one
      iteration of the loop does. */
  lemma StateAppend(kept: seq<string>, line: string)
    requires line != []
    ensures State(kept).Err? ==> State(kept + [line]) == State(kept)
    ensures State(kept).Ok? ==> State(kept + [line]) == Advance(State(kept).value, line)
  {
    var all := kept + [line];
    assert all[..|all| - 1] == kept;
    assert all[|all| - 1] == line;
    if RenderAll(kept).Ok? && RenderLine(line).Ok? {
      var outs := RenderAll(kept).value;
      var out := RenderLine(line).value;
      assert RenderAll(all) == Ok(outs + [out]);
      var j0 := FirstJmp(kept);
      if j0.Some? {
        assert FirstJmp(all) == j0;
        OpenedAppend(outs, j0, out);
        assert Opened(outs, j0) + [out] + [] == Opened(outs, j0) + [out];
      } else if Contains(line, "jmp") {
        assert FirstJmp(all) == Some(|outs|);
        assert (outs + [out])[..|outs| + 1] == outs + [out];
        assert (outs + [out])[|outs| + 1..] == [];
        assert Opened(outs + [out], Some(|outs|)) == outs + [out] + [WhileOpen];
        assert State(kept) == Ok(Acc(outs, false));
      } else {
        assert outs + [out] + [] == outs + [out];
      }
    }
  }

  /** An input line that strips to nothing keeps the prediction. */
  lemma ScanSkip(init: seq<string>, raw: string)
    requires Scan(init) == State(Kept(init))
    requires StripComment(raw) == []
    ensures Scan(init + [raw]) == State(Kept(init + [raw]))
  {
    var lines := init + [raw];
    assert lines[..|lines| - 1] == init;
    KeptSnoc(init, raw);
    if Scan(init).Ok? {
      assert Step(Scan(init).value, raw) == Scan(init);
    }
  }

  /** An input line that strips to a non-empty line keeps the prediction. */
  lemma ScanAdvance(init: seq<string>, raw: string)
    requires Scan(init) == State(Kept(init))
    requires StripComment(raw) != []
    ensures Scan(init + [raw]) == State(Kept(init + [raw]))
  {
    var lines := init + [raw];
    var line := StripComment(raw);
    assert lines[..|lines| - 1] == init;
    KeptSnoc(init, raw);
    StateAppend(Kept(init), line);
    if Scan(init).Ok? {
      assert Step(Scan(init).value, raw) == Advance(Scan(init).value, line);
    }
  }

  /** After any prefix of the lines, the loop's state is the one the
      reference predicts from the kept lines. */
  lemma {:induction false} ScanReference(lines: seq<string>)
    ensures Scan(lines) == State(Kept(lines))
    decreases |lines|
  {
    if lines == [] {
      assert RenderAll([]) == Ok([]);
      assert FirstJmp([]) == None;
    } else {
      var init := lines[..|lines| - 1];
      var raw := lines[|lines| - 1];
      assert lines == init + [raw];
      ScanReference(init);
      if StripComment(raw) == [] {
        ScanSkip(init, raw);
      } else {
        ScanAdvance(init, raw);
      }
    }
  }

  /** The loop computes the reference body. */
  lemma BodyIsReference(lines: seq<string>)
    ensures Body(lines) == Reference(lines)
  {
    ScanReference(lines);
  }

  /** Every non-empty string of `ss` survives the filter. */
  lemma {:induction false} NonEmptyMembers(ss: seq<string>)
    ensures forall s :: s in NonEmpty(ss) <==> s in ss && s != []
    decreases |ss|
  {
    if ss != [] {
      var init := ss[..|ss| - 1];
      NonEmptyMembers(init);
      forall s | s in ss && s != [] ensures s in NonEmpty(ss) {
        var i :| 0 <= i < |ss| && ss[i] == s;
        if i < |init| {
          assert init[i] == s;
        }
      }
    }
  }

  /** The filter distributes over concatenation. */
  lemma {:induction false} NonEmptyConcat(x: seq<string>, y: seq<string>)
    ensures NonEmpty(x + y) == NonEmpty(x) + NonEmpty(y)
    decreases |y|
  {
    if y == [] {
      assert x + y == x;
      assert NonEmpty(x) + [] == NonEmpty(x);
    } else {
      var y0 := y[..|y| - 1];
      NonEmptyConcat(x, y0);
      var xy := x + y;
      assert xy[..|xy| - 1] == x + y0;
      var last := y[|y| - 1];
      assert xy[|xy| - 1] == last;
      var extra := if last == [] then [] else [last];
      assert NonEmpty(x) + NonEmpty(y0) + extra == NonEmpty(x) + (NonEmpty(y0) + extra);
    }
  }

  /** Mapping distributes over concatenation. */
  lemma MappedConcat(f: string -> string, x: seq<string>, y: seq<string>)
    ensures Mapped(f, x + y) == Mapped(f, x) + Mapped(f, y)
  {
    var l := Mapped(f, x + y);
    var r := Mapped(f, x) + Mapped(f, y);
    forall i | 0 <= i < |l| ensures l[i] == r[i] {
      if i < |x| {
        assert (x + y)[i] == x[i];
      } else {
        assert (x + y)[i] == y[i - |x|];
      }
    }
  }

  /** Keeping distributes over concatenation of the input. */
  lemma KeptConcat(x: seq<string>, y: seq<string>)
    ensures Kept(x + y) == Kept(x) + Kept(y)
  {
    MappedConcat(StripComment, x, y);
    NonEmptyConcat(Stripped(x), Stripped(y));
  }

  /** One more input line adds its stripped form when that is not empty. */
  lemma KeptSnoc(lines: seq<string>, raw: string)
    ensures StripComment(raw) == [] ==> Kept(lines + [raw]) == Kept(lines)
    ensures StripComment(raw) != [] ==> Kept(lines + [raw]) == Kept(lines) + [StripComment(raw)]
  {
    var line := StripComment(raw);
    MappedSnoc(StripComment, lines, raw);
    NonEmptySnoc(Stripped(lines), line);
    assert Kept(lines) + [] == Kept(lines);
  }

  lemma MappedSnoc(f: string -> string, lines: seq<string>, x: string)
    ensures Mapped(f, lines + [x]) == Mapped(f, lines) + [f(x)]
  {
  }

  lemma NonEmptySnoc(ss: seq<string>, x: string)
    ensures NonEmpty(ss + [x]) == NonEmpty(ss) + (if x == [] then [] else [x])
  {
    assert (ss + [x])[..|ss|] == ss;
  }

  /** A line is kept exactly when some input line strips to it and it is
      not empty. */
  lemma KeptMembers(lines: seq<string>)
    ensures forall s :: s in Kept(lines) <==>
      s != [] && exists i :: 0 <= i < |lines| && StripComment(lines[i]) == s
  {
    var st := Stripped(lines);
    NonEmptyMembers(st);
    forall s ensures s in st <==> exists i :: 0 <= i < |lines| && StripComment(lines[i]) == s {
      if s in st {
        var i :| 0 <= i < |st| && st[i] == s;
        assert StripComment(lines[i]) == s;
      }
      if exists i :: 0 <= i < |lines| && StripComment(lines[i]) == s {
        var i :| 0 <= i < |lines| && StripComment(lines[i]) == s;
        assert st[i] == s;
      }
    }
  }

  /** A line that is empty once its comment is stripped (a blank line, a
      comment-only line) changes nothing in the result. */
  lemma BlankLineIgnored(a: seq<string>, line: string, b: seq<string>)
    requires StripComment(line) == []
    ensures Body(a + [line] + b) == Body(a + b)
  {
    KeptConcat(a + [line], b);
    KeptConcat(a, [line]);
    KeptConcat(a, b);
    var st := Stripped([line]);
    assert st[..0] == [] && st[0] == [];
    assert Kept([line]) == [];
    assert Kept(a) + [] == Kept(a);
    BodyIsReference(a + [line] + b);
    BodyIsReference(a + b);
  }

  /** Some kept line contains `jmp` exactly when some input line does once
      its comment is stripped. */
  lemma HasJmp(lines: seq<string>)
    ensures FirstJmp(Kept(lines)).Some? <==>
      exists i :: 0 <= i < |lines| && Contains(StripComment(lines[i]), "jmp")
  {
    var kept := Kept(lines);
    KeptMembers(lines);
    if exists i :: 0 <= i < |lines| && Contains(StripComment(lines[i]), "jmp") {
      var i :| 0 <= i < |lines| && Contains(StripComment(lines[i]), "jmp");
      var s := StripComment(lines[i]);
      assert s != [] by {
        var p :| 0 <= p <= |s| && OccursAt(s, "jmp", p);
      }
      assert s in kept;
      var k :| 0 <= k < |kept| && kept[k] == s;
    }
    if FirstJmp(kept).Some? {
      var k := FirstJmp(kept).value;
      assert kept[k] in kept;
      var i :| 0 <= i < |lines| && StripComment(lines[i]) == kept[k];
    }
  }

  /** A stripped line containing `jmp` makes a kept line containing it. */
  lemma JmpKept(lines: seq<string>)
    requires exists i :: 0 <= i < |lines| && Contains(StripComment(lines[i]), "jmp")
    ensures FirstJmp(Kept(lines)).Some?
  {
    HasJmp(lines);
  }

  /** The body has one line per kept line, plus the two wrapper lines when
      some stripped line contains `jmp`. */
  lemma BodyLength(lines: seq<string>)
    requires Body(lines).Ok?
    ensures |Body(lines).value| == |Kept(lines)| +
      (if exists i :: 0 <= i < |lines| && Contains(StripComment(lines[i]), "jmp") then 2 else 0)
  {
    BodyIsReference(lines);
    HasJmp(lines);
    var kept := Kept(lines);
    var outs := RenderAll(kept).value;
    var j := FirstJmp(kept);
    if j.Some? {
      assert |Opened(outs, j)| == |outs| + 1;
    }
  }

  /** A failure is the failure of the first element on which `g` fails. */
  lemma {:induction false} TraverseFirstError(g: string -> Result<string>, xs: seq<string>)
    requires Traverse(g, xs).Err?
    ensures exists k ::
      && 0 <= k < |xs|
      && g(xs[k]) == Err(Traverse(g, xs).error)
      && forall i :: 0 <= i < k ==> g(xs[i]).Ok?
    decreases |xs|
  {
    var init := xs[..|xs| - 1];
    if Traverse(g, init).Err? {
      TraverseFirstError(g, init);
      var k :| 0 <= k < |init| && g(init[k]) == Err(Traverse(g, init).error) &&
        (forall i :: 0 <= i < k ==> g(init[i]).Ok?);
      assert xs[k] == init[k];
      assert forall i :: 0 <= i < k ==> xs[i] == init[i];
    } else {
      var k := |xs| - 1;
      assert forall i :: 0 <= i < k ==> xs[i] == init[i];
    }
  }

  /** The conversion fails exactly when some kept line fails to render,
      and then with the error of the first such line. */
  lemma BodyError(lines: seq<string>)
    ensures Body(lines).Err? <==> exists k :: 0 <= k < |Kept(lines)| && RenderLine(Kept(lines)[k]).Err?
    ensures Body(lines).Err? ==>
      exists k ::
        && 0 <= k < |Kept(lines)|
        && RenderLine(Kept(lines)[k]) == Err(Body(lines).error)
        && forall i :: 0 <= i < k ==> RenderLine(Kept(lines)[i]).Ok?
  {
    BodyIsReference(lines);
    if Body(lines).Err? {
      TraverseFirstError(RenderLine, Kept(lines));
    }
  }

  /** No rendered line is a wrapper line. */
  lemma RenderedLinesNotWrappers(kept: seq<string>)
    requires RenderAll(kept).Ok?
    ensures forall k :: 0 <= k < |kept| ==>
      RenderAll(kept).value[k] != WhileOpen && RenderAll(kept).value[k] != WhileClose
  {
    forall k | 0 <= k < |kept|
      ensures RenderAll(kept).value[k] != WhileOpen && RenderAll(kept).value[k] != WhileClose
    {
      RenderedNotWrapper(kept[k]);
    }
  }

  /** Without a `jmp` the wrapper is never opened. */
  lemma NoJmpKept(lines: seq<string>)
    requires forall i :: 0 <= i < |lines| ==> !Contains(StripComment(lines[i]), "jmp")
    ensures FirstJmp(Kept(lines)).None?
  {
    HasJmp(lines);
  }

  /** The renderings of `kept` without a wrapper, line by line. */
  lemma UnwrappedRenderings(kept: seq<string>, outs: seq<string>, body: seq<string>)
    requires RenderAll(kept) == Ok(outs)
    requires body == Wrap(outs, None)
    ensures |body| == |kept|
    ensures forall k :: 0 <= k < |body| ==> RenderLine(kept[k]) == Ok(body[k])
    ensures WhileOpen !in body && WhileClose !in body
  {
    RenderedLinesNotWrappers(kept);
    assert body == outs + [];
  }

  /** The wrapped renderings of `kept`, with the wrapper opened after
      line `j`: the renderings sit around the opening line. */
  lemma WrappedRenderings(kept: seq<string>, outs: seq<string>, j: nat, body: seq<string>)
    requires RenderAll(kept) == Ok(outs) && j < |kept|
    requires body == Wrap(outs, Some(j))
    ensures |body| == |kept| + 2
    ensures forall k :: 0 <= k <= j ==> RenderLine(kept[k]) == Ok(body[k])
    ensures forall k :: j < k < |kept| ==> RenderLine(kept[k]) == Ok(body[k + 1])
  {
    WrapShape(outs, j);
  }

  /** In the wrapped renderings of `kept` each wrapper line occurs once. */
  lemma WrappedOnce(kept: seq<string>, outs: seq<string>, j: nat, body: seq<string>)
    requires RenderAll(kept) == Ok(outs) && j < |kept|
    requires body == Wrap(outs, Some(j))
    ensures forall i :: 0 <= i < |body| ==> (body[i] == WhileOpen <==> i == j + 1)
    ensures forall i :: 0 <= i < |body| ==> (body[i] == WhileClose <==> i == |body| - 1)
  {
    RenderedLinesNotWrappers(kept);
    WrapOnce(outs, j);
  }

  /** Without a `jmp` the body is the kept lines' renderings, one for one,
      and holds neither wrapper line. */
  lemma BodyWithoutJmp(lines: seq<string>)
    requires Body(lines).Ok?
    requires forall i :: 0 <= i < |lines| ==> !Contains(StripComment(lines[i]), "jmp")
    ensures var body := Body(lines).value;
      && |body| == |Kept(lines)|
      && (forall k :: 0 <= k < |body| ==> RenderLine(Kept(lines)[k]) == Ok(body[k]))
      && WhileOpen !in body && WhileClose !in body
  {
    BodyIsReference(lines);
    NoJmpKept(lines);
    var kept := Kept(lines);
    UnwrappedRenderings(kept, RenderAll(kept).value, Body(lines).value);
  }

  /** With a `jmp` the body gains two lines; the renderings of the kept
      lines up to the first one containing `jmp` come first, one slot is
      left for the opening line, and the rest of the renderings follow. */
  lemma BodyWithJmp(lines: seq<string>)
    requires Body(lines).Ok?
    requires exists i :: 0 <= i < |lines| && Contains(StripComment(lines[i]), "jmp")
    ensures FirstJmp(Kept(lines)).Some?
    ensures var kept := Kept(lines);
      var body := Body(lines).value;
      var j := FirstJmp(kept).value;
      && |body| == |kept| + 2
      && (forall k :: 0 <= k <= j ==> RenderLine(kept[k]) == Ok(body[k]))
      && (forall k :: j < k < |kept| ==> RenderLine(kept[k]) == Ok(body[k + 1]))
  {
    BodyIsReference(lines);
    JmpKept(lines);
    var kept := Kept(lines);
    WrappedRenderings(kept, RenderAll(kept).value, FirstJmp(kept).value, Body(lines).value);
  }

  /** With a `jmp`, the opening line occurs right after the rendering of
      the first kept line containing it (whether that line parsed or not)
      and nowhere else, and the closing line is the last line and occurs
      nowhere else. */
  lemma WrapperLinesOnce(lines: seq<string>)
    requires Body(lines).Ok?
    requires exists i :: 0 <= i < |lines| && Contains(StripComment(lines[i]), "jmp")
    ensures FirstJmp(Kept(lines)).Some?
    ensures var body := Body(lines).value;
      var j := FirstJmp(Kept(lines)).value;
      && (forall i :: 0 <= i < |body| ==> (body[i] == WhileOpen <==> i == j + 1))
      && (forall i :: 0 <= i < |body| ==> (body[i] == WhileClose <==> i == |body| - 1))
  {
    BodyIsReference(lines);
    JmpKept(lines);
    var kept := Kept(lines);
    WrappedOnce(kept, RenderAll(kept).value, FirstJmp(kept).value, Body(lines).value);
  }

  /** The wrapped lines: the lines up to `j`, the opening line, the rest,
      the closing line. */
  lemma WrapShape(outs: seq<string>, j: nat)
    requires j < |outs|
    ensures var body := Wrap(outs, Some(j));
      && |body| == |outs| + 2
      && (forall k :: 0 <= k <= j ==> body[k] == outs[k])
      && body[j + 1] == WhileOpen
      && (forall k :: j < k < |outs| ==> body[k + 1] == outs[k])
      && body[|body| - 1] == WhileClose
  {
    assert Wrap(outs, Some(j)) == outs[..j + 1] + [WhileOpen] + outs[j + 1..] + [WhileClose];
  }

  /** With no wrapper line among `outs`, each wrapper line occurs exactly
      once in the wrapped lines. */
  lemma WrapOnce(outs: seq<string>, j: nat)
    requires j < |outs|
    requires forall k :: 0 <= k < |outs| ==> outs[k] != WhileOpen && outs[k] != WhileClose
    ensures var body := Wrap(outs, Some(j));
      && (forall i :: 0 <= i < |body| ==> (body[i] == WhileOpen <==> i == j + 1))
      && (forall i :: 0 <= i < |body| ==> (body[i] == WhileClose <==> i == |body| - 1))
  {
    WrapShape(outs, j);
    assert WhileOpen != WhileClose;
  }

  /** The filter keeps a list of non-empty strings whole. */
  lemma {:induction false} NonEmptyAll(ss: seq<string>)
    requires forall k :: 0 <= k < |ss| ==> ss[k] != []
    ensures NonEmpty(ss) == ss
    decreases |ss|
  {
    if ss != [] {
      NonEmptyAll(ss[..|ss| - 1]);
      assert ss[..|ss| - 1] + [ss[|ss| - 1]] == ss;
    }
  }

  /** The renderings line by line determine the rendering of the list. */
  lemma RenderAllOf(kept: seq<string>, outs: seq<string>)
    requires |outs| == |kept|
    requires forall k :: 0 <= k < |kept| ==> RenderLine(kept[k]) == Ok(outs[k])
    ensures RenderAll(kept) == Ok(outs)
  {
    var r := RenderAll(kept);
    assert r.Ok?;
    assert r.value == outs;
  }

  /** A kept line containing `jmp` with none before it is the first one. */
  lemma FirstJmpAt(kept: seq<string>, j: nat)
    requires j < |kept| && Contains(kept[j], "jmp")
    requires forall i :: 0 <= i < j ==> !Contains(kept[i], "jmp")
    ensures FirstJmp(kept) == Some(j)
  {
  }

  /** Opening the wrapper after the last line puts both wrapper lines at
      the end. */
  lemma WrapLast(outs: seq<string>)
    requires outs != []
    ensures Wrap(outs, Some(|outs| - 1)) == outs + [WhileOpen, WhileClose]
  {
    assert outs[..|outs|] == outs;
    assert outs[|outs|..] == [];
  }

  /** Three non-empty lines that `f` leaves unchanged all pass the filter
      after mapping `f`. */
  lemma ThreeFixed(f: string -> string, l0: string, l1: string, l2: string)
    requires f(l0) == l0 && l0 != []
    requires f(l1) == l1 && l1 != []
    requires f(l2) == l2 && l2 != []
    ensures NonEmpty(Mapped(f, [l0, l1, l2])) == [l0, l1, l2]
  {
    var lines := [l0, l1, l2];
    assert Mapped(f, lines) == lines;
    NonEmptyAll(lines);
  }

  /** Three lines rendered one by one are rendered as a list. */
  lemma ThreeRendered(l0: string, l1: string, l2: string, o0: string, o1: string, o2: string)
    requires RenderLine(l0) == Ok(o0)
    requires RenderLine(l1) == Ok(o1)
    requires RenderLine(l2) == Ok(o2)
    ensures RenderAll([l0, l1, l2]) == Ok([o0, o1, o2])
  {
    var lines, outs := [l0, l1, l2], [o0, o1, o2];
    assert forall k :: 0 <= k < |lines| ==> RenderLine(lines[k]) == Ok(outs[k]);
    RenderAllOf(lines, outs);
  }

  /** Of three lines, only the last holding `jmp` makes it the first. */
  lemma ThreeJmp(l0: string, l1: string, l2: string)
    requires !Contains(l0, "jmp") && !Contains(l1, "jmp") && Contains(l2, "jmp")
    ensures FirstJmp([l0, l1, l2]) == Some(2)
  {
    FirstJmpAt([l0, l1, l2], 2);
  }

  /** The reference body from its three parts. */
  lemma ReferenceIs(lines: seq<string>, outs: seq<string>, j: nat)
    requires j < |outs|
    requires Kept(lines) == lines && RenderAll(lines) == Ok(outs) && FirstJmp(lines) == Some(j)
    ensures Reference(lines) == Ok(Wrap(outs, Some(j)))
  {
  }

  /** Three lines that are their own stripped forms, the first two without
      `jmp` and the third with it: the body is their renderings, then the
      opening and the closing line. */
  lemma BodyOfThree(l0: string, l1: string, l2: string, o0: string, o1: string, o2: string)
    requires StripComment(l0) == l0 && l0 != [] && RenderLine(l0) == Ok(o0) && !Contains(l0, "jmp")
    requires StripComment(l1) == l1 && l1 != [] && RenderLine(l1) == Ok(o1) && !Contains(l1, "jmp")
    requires StripComment(l2) == l2 && l2 != [] && RenderLine(l2) == Ok(o2) && Contains(l2, "jmp")
    ensures Body([l0, l1, l2]) == Ok([o0, o1, o2, WhileOpen, WhileClose])
  {
    var lines, outs := [l0, l1, l2], [o0, o1, o2];
    ThreeFixed(StripComment, l0, l1, l2);
    ThreeRendered(l0, l1, l2, o0, o1, o2);
    ThreeJmp(l0, l1, l2);
    ReferenceIs(lines, outs, 2);
    WrapThree(o0, o1, o2);
    BodyIsReference(lines);
  }

  /** Three renderings wrapped after the last one. */
  lemma WrapThree(o0: string, o1: string, o2: string)
    ensures Wrap([o0, o1, o2], Some(2)) == [o0, o1, o2, WhileOpen, WhileClose]
  {
    var outs := [o0, o1, o2];
    WrapLast(outs);
    assert outs + [WhileOpen, WhileClose] == [o0, o1, o2, WhileOpen, WhileClose];
  }

  /** The worked example end to end: `mov a, b`, `add a, 1`, `jmp loop`
      give the two assignments, the unknown-instruction comment, and the
      wrapper opened after it and closed at the end. */
  lemma ExampleBody(l0: string, l1: string, l2: string, o0: string, o1: string, o2: string)
    requires l0 == "mov a, b" && l1 == "add a, 1" && l2 == "jmp loop"
    requires o0 == "    a  =  b;" && o1 == "    a  +=  1;"
    requires o2 == "    // Unknown instruction: jmp loop"
    ensures Body([l0, l1, l2]) == Ok([o0, o1, o2, WhileOpen, WhileClose])
  {
    ExampleMovLine(l0, o0);
    ExampleAddLine(l1, o1);
    ExampleJmpLine(l2, o2);
    BodyOfThree(l0, l1, l2, o0, o1, o2);
  }
}
