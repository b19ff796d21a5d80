/**
 * The Azure clients: the OCR client's reconstruction of reading-order text
 * from the lines of a Read response (with the "name label" heuristic), the
 * translator's request list and its per-language dispatch of the answer, and
 * the text-to-speech client's choice of SSML body per language.
 *
 * Service responses are inputs here: the parts of the JSON the code looks at
 * are datatypes whose `Option` fields are `None` when the member is absent or
 * of another JSON type than the code expects.
 */
module AzureClients {
  import opened Wrappers
  import opened RustStr
  import opened Utils
  import opened Json

  // ===========================================================================
  // OCR: the shape of the response
  // ===========================================================================

  /** `line["boundingBox"].as_str()` and `line["words"]`, each word as `w["text"].as_str()`. */
  datatype OcrLine = OcrLine(boundingBox: Option<string>, words: Option<seq<Option<string>>>)

  /** `region["lines"].as_array()`. */
  datatype OcrRegion = OcrRegion(lines: Option<seq<OcrLine>>)

  /** `response["regions"].as_array()`. */
  datatype OcrResponse = OcrResponse(regions: Option<seq<OcrRegion>>)

  /**
   * The two `unwrap` panics of the reconstruction: a line whose bounding box is
   * not a string, and one whose bounding box does not parse.
   */
  datatype OcrError = MissingBoundingBox | MalformedBoundingBox

  /** How far, in pixels, every later line must start left of the first for it to be a name. */
  const NameOffset: int := 60

  // ===========================================================================
  // OCR: the reconstruction, defined as functions
  // ===========================================================================

  /** Each word's text trimmed, a missing or non-string text counting as "". */
  function TrimmedWords(ws: seq<Option<string>>): (r: seq<string>)
    ensures |r| == |ws|
    ensures forall i :: 0 <= i < |ws| ==> r[i] == Trim(ws[i].GetOr(""))
  {
    if ws == [] then [] else TrimmedWords(ws[..|ws| - 1]) + [Trim(ws[|ws| - 1].GetOr(""))]
  }

  /** The text of one OCR line: its trimmed words joined with no separator. */
  function WordsText(words: Option<seq<Option<string>>>): string {
    match words
    case None => ""
    case Some(ws) => Concat(TrimmedWords(ws))
  }

  /** A line's words contribute in order: the text of a split word list is the two texts joined. */
  lemma WordsTextAppend(a: seq<Option<string>>, b: seq<Option<string>>)
    ensures WordsText(Some(a + b)) == WordsText(Some(a)) + WordsText(Some(b))
  {
    TrimmedWordsAppend(a, b);
    ConcatAppend(TrimmedWords(a), TrimmedWords(b));
  }

  lemma {:induction false} TrimmedWordsAppend(a: seq<Option<string>>, b: seq<Option<string>>)
    ensures TrimmedWords(a + b) == TrimmedWords(a) + TrimmedWords(b)
  {
    if b == [] {
      assert a + b == a;
    } else {
      assert (a + b)[..|a + b| - 1] == a + b[..|b| - 1];
      TrimmedWordsAppend(a, b[..|b| - 1]);
    }
  }

  /** A word contributes exactly its text without surrounding whitespace; a missing text contributes nothing. */
  lemma WordsTextOne(w1: string, t: string, w2: string)
    requires AllWhitespace(w1) && AllWhitespace(w2) && Trimmed(t)
    ensures WordsText(Some([Some(w1 + t + w2)])) == t
    ensures WordsText(Some([None])) == ""
    ensures WordsText(None) == ""
  {
    TrimExact(w1, t, w2);
    assert TrimmedWords([Some(w1 + t + w2)]) == [t];
    assert Concat([t]) == Concat([]) + t by {
      assert [t][..0] == [];
    }
    TrimExact("", "", "");
    assert "" + "" + "" == "";
    assert TrimmedWords([None]) == [""];
    assert Concat([""]) == Concat([]) + "" by {
      assert [""][..0] == [];
    }
  }

  /** One OCR line as an `InterpretedLine`, or the panic it causes. */
  function InterpretLine(line: OcrLine): Result<InterpretedLine, OcrError> {
    match line.boundingBox
    case None => Err(MissingBoundingBox)
    case Some(box) =>
      match FromStr(box)
      case Err(_) => Err(MalformedBoundingBox)
      case Ok(l) => Ok(l.(text := l.text + WordsText(line.words)))
  }

  /**
   * A line interprets exactly when it has a well-formed box; the result is that
   * box, in i32 range, carrying the line's text. A missing box and a malformed
   * one are told apart.
   */
  lemma InterpretLineSpec(line: OcrLine)
    ensures InterpretLine(line).Ok? <==> line.boundingBox.Some? && WellFormedBox(line.boundingBox.value)
    ensures line.boundingBox.None? ==> InterpretLine(line) == Err(MissingBoundingBox)
    ensures InterpretLine(line).Ok? ==>
      var l := InterpretLine(line).value; var b := FromStr(line.boundingBox.value).value;
      && InI32Range(l) && l.x == b.x && l.y == b.y && l.width == b.width && l.height == b.height
      && l.text == WordsText(line.words)
  {
    if line.boundingBox.Some? {
      FromStrSpec(line.boundingBox.value);
    }
  }

  /** All lines of all regions, in the order the service returned them; a region without lines adds none. */
  function RawLines(regions: seq<OcrRegion>): seq<OcrLine> {
    if regions == [] then []
    else RawLines(regions[..|regions| - 1]) + regions[|regions| - 1].lines.GetOr([])
  }

  lemma {:induction false} RawLinesAppend(a: seq<OcrRegion>, b: seq<OcrRegion>)
    ensures RawLines(a + b) == RawLines(a) + RawLines(b)
  {
    if b == [] {
      assert a + b == a;
    } else {
      assert (a + b)[..|a + b| - 1] == a + b[..|b| - 1];
      RawLinesAppend(a, b[..|b| - 1]);
    }
  }

  /**
   * What the `unwrap` calls in the loop amount to: the values in order, or the
   * first error, after which nothing is looked at.
   */
  function Collect<T, E>(rs: seq<Result<T, E>>): Result<seq<T>, E> {
    if rs == [] then Ok([])
    else
      match Collect(rs[..|rs| - 1])
      case Err(e) => Err(e)
      case Ok(prefix) =>
        match rs[|rs| - 1]
        case Err(e) => Err(e)
        case Ok(v) => Ok(prefix + [v])
  }

  /** A successful collection has one value per result, each the value of its result. */
  lemma {:induction false} CollectOk<T, E>(rs: seq<Result<T, E>>, k: nat)
    requires Collect(rs).Ok? && k < |rs|
    ensures |Collect(rs).value| == |rs|
    ensures rs[k] == Ok(Collect(rs).value[k])
  {
    var p := rs[..|rs| - 1];
    if k < |p| {
      CollectOk(p, k);
      assert rs[k] == p[k];
    } else if p != [] {
      CollectOk(p, 0);
    }
  }

  /** When every result is a value, the collection succeeds: with `CollectOk`, it is all or nothing. */
  lemma {:induction false} CollectComplete<T, E>(rs: seq<Result<T, E>>)
    requires forall k :: 0 <= k < |rs| ==> rs[k].Ok?
    ensures Collect(rs).Ok?
  {
    if rs != [] {
      var p := rs[..|rs| - 1];
      assert forall k :: 0 <= k < |p| ==> p[k] == rs[k];
      CollectComplete(p);
    }
  }

  /** Once an error has been met, nothing after it changes the outcome. */
  lemma {:induction false} CollectErrExtends<T, E>(p: seq<Result<T, E>>, q: seq<Result<T, E>>)
    requires Collect(p).Err?
    ensures Collect(p + q) == Collect(p)
  {
    if q == [] {
      assert p + q == p;
    } else {
      assert (p + q)[..|p + q| - 1] == p + q[..|q| - 1];
      CollectErrExtends(p, q[..|q| - 1]);
    }
  }

  /** The per-line results, in input order. */
  function Interpretations(raw: seq<OcrLine>): (rs: seq<Result<InterpretedLine, OcrError>>)
    ensures |rs| == |raw|
    ensures forall k :: 0 <= k < |raw| ==> rs[k] == InterpretLine(raw[k])
  {
    if raw == [] then [] else Interpretations(raw[..|raw| - 1]) + [InterpretLine(raw[|raw| - 1])]
  }

  lemma {:induction false} InterpretationsAppend(p: seq<OcrLine>, q: seq<OcrLine>)
    ensures Interpretations(p + q) == Interpretations(p) + Interpretations(q)
  {
    if q == [] {
      assert p + q == p;
    } else {
      assert (p + q)[..|p + q| - 1] == p + q[..|q| - 1];
      InterpretationsAppend(p, q[..|q| - 1]);
    }
  }

  /**
   * The interpreted lines in input order, or the error of the first line that
   * does not interpret: the reconstruction is all or nothing.
   */
  function CollectLines(raw: seq<OcrLine>): Result<seq<InterpretedLine>, OcrError> {
    Collect(Interpretations(raw))
  }

  /**
   * Collected lines correspond one to one, by index, to the raw lines, each
   * the interpretation of its raw line.
   */
  lemma CollectLinesOk(raw: seq<OcrLine>, k: nat)
    requires CollectLines(raw).Ok? && k < |raw|
    ensures |CollectLines(raw).value| == |raw|
    ensures InterpretLine(raw[k]) == Ok(CollectLines(raw).value[k])
  {
    CollectOk(Interpretations(raw), k);
  }

  /** When every line interprets, the collection succeeds. */
  lemma CollectLinesComplete(raw: seq<OcrLine>)
    requires forall k :: 0 <= k < |raw| ==> InterpretLine(raw[k]).Ok?
    ensures CollectLines(raw).Ok?
  {
    var rs := Interpretations(raw);
    assert forall k :: 0 <= k < |rs| ==> rs[k] == InterpretLine(raw[k]);
    CollectComplete(rs);
  }

  /** One more line that interprets is appended to the collected lines. */
  lemma CollectLinesStep(p: seq<OcrLine>, x: OcrLine, l: InterpretedLine)
    requires CollectLines(p).Ok? && InterpretLine(x) == Ok(l)
    ensures CollectLines(p + [x]) == Ok(CollectLines(p).value + [l])
  {
    InterpretationsAppend(p, [x]);
    var rs := Interpretations(p) + [Ok(l)];
    assert rs[..|rs| - 1] == Interpretations(p);
  }

  /** The first line that fails decides the outcome, whatever follows it. */
  lemma CollectLinesFailsAt(p: seq<OcrLine>, x: OcrLine, q: seq<OcrLine>)
    requires CollectLines(p).Ok? && InterpretLine(x).Err?
    ensures CollectLines(p + [x] + q) == Err(InterpretLine(x).error)
  {
    InterpretationsAppend(p, [x]);
    InterpretationsAppend(p + [x], q);
    var rs := Interpretations(p) + [InterpretLine(x)];
    assert rs[..|rs| - 1] == Interpretations(p);
    CollectErrExtends(rs, Interpretations(q));
  }

  // --- the stable sort of `Vec::sort` -----------------------------------------

  /** `a` may come before `b`: `cmp` is not `Greater`. */
  predicate Le(a: InterpretedLine, b: InterpretedLine) {
    Cmp(a, b) != Greater
  }

  predicate SortedLines(ls: seq<InterpretedLine>) {
    forall i, j :: 0 <= i < j < |ls| ==> Le(ls[i], ls[j])
  }

  /** Puts `l` in front of the first line it may precede, so before lines that compare `Equal`. */
  function Insert(l: InterpretedLine, ls: seq<InterpretedLine>): (r: seq<InterpretedLine>)
    ensures |r| == |ls| + 1
    ensures multiset(r) == multiset(ls) + multiset{l}
  {
    if ls == [] then [l]
    else if Le(l, ls[0]) then [l] + ls
    else
      assert ls == [ls[0]] + ls[1..];
      [ls[0]] + Insert(l, ls[1..])
  }

  /** `Vec::sort` on the lines: a stable sort by `cmp`, here an insertion sort. */
  function SortLines(ls: seq<InterpretedLine>): (r: seq<InterpretedLine>)
    ensures |r| == |ls|
    ensures multiset(r) == multiset(ls)
  {
    if ls == [] then []
    else
      assert ls == [ls[0]] + ls[1..];
      Insert(ls[0], SortLines(ls[1..]))
  }

  lemma {:induction false} InsertSorted(l: InterpretedLine, ls: seq<InterpretedLine>)
    requires SortedLines(ls)
    ensures SortedLines(Insert(l, ls))
  {
    if ls != [] && !Le(l, ls[0]) {
      InsertSorted(l, ls[1..]);
      var r := Insert(l, ls);
      assert r == [ls[0]] + Insert(l, ls[1..]);
      forall j | 0 < j < |r| ensures Le(r[0], r[j]) {
        assert r[j] in multiset(Insert(l, ls[1..]));
        assert r[j] in multiset(ls[1..]) + multiset{l};
        if r[j] != l {
          assert r[j] in ls[1..];
        }
      }
    }
  }

  /** After the sort the lines are in reading order. */
  lemma {:induction false} SortLinesSorted(ls: seq<InterpretedLine>)
    ensures SortedLines(SortLines(ls))
  {
    if ls != [] {
      SortLinesSorted(ls[1..]);
      InsertSorted(ls[0], SortLines(ls[1..]));
    }
  }

  /** Neighbours in the sorted list: the later one is lower, or on the same row and not further left. */
  lemma SortLinesReadingOrder(ls: seq<InterpretedLine>, i: nat)
    requires i + 1 < |ls|
    ensures var s := SortLines(ls);
      s[i].y < s[i + 1].y || (s[i].y == s[i + 1].y && s[i].x <= s[i + 1].x)
  {
    SortLinesSorted(ls);
  }

  /** The lines of `l` at (x, y): `[l]` or nothing. */
  function Here(l: InterpretedLine, x: int, y: int): seq<InterpretedLine> {
    if l.x == x && l.y == y then [l] else []
  }

  /** The lines sitting at position (x, y), in their order in `ls`. */
  function AtPosition(ls: seq<InterpretedLine>, x: int, y: int): seq<InterpretedLine> {
    if ls == [] then []
    else Here(ls[0], x, y) + AtPosition(ls[1..], x, y)
  }

  lemma AtPositionCons(h: InterpretedLine, t: seq<InterpretedLine>, x: int, y: int)
    ensures AtPosition([h] + t, x, y) == Here(h, x, y) + AtPosition(t, x, y)
  {
    assert ([h] + t)[0] == h && ([h] + t)[1..] == t;
  }

  /** Putting `a` after `h` or before it makes no difference to the lines at one place, when they are not both there. */
  lemma HereSwap(h: InterpretedLine, a: InterpretedLine, rest: seq<InterpretedLine>, x: int, y: int)
    requires Cmp(a, h) == Greater
    ensures Here(h, x, y) + (Here(a, x, y) + rest) == Here(a, x, y) + (Here(h, x, y) + rest)
  {
    if Here(a, x, y) != [] {
      assert Here(h, x, y) == [];
    }
  }

  lemma {:induction false} InsertAtPosition(l: InterpretedLine, ls: seq<InterpretedLine>, x: int, y: int)
    ensures AtPosition(Insert(l, ls), x, y) == Here(l, x, y) + AtPosition(ls, x, y)
  {
    if ls == [] || Le(l, ls[0]) {
      assert Insert(l, ls) == [l] + ls;
      AtPositionCons(l, ls, x, y);
    } else {
      var tail := Insert(l, ls[1..]);
      assert Insert(l, ls) == [ls[0]] + tail;
      InsertAtPosition(l, ls[1..], x, y);
      AtPositionCons(ls[0], tail, x, y);
      AtPositionCons(ls[0], ls[1..], x, y);
      assert [ls[0]] + ls[1..] == ls;
      HereSwap(ls[0], l, AtPosition(ls[1..], x, y), x, y);
    }
  }

  /**
   * The sort is stable: lines that compare `Equal` (same x and y) keep the
   * order they had in the input.
   */
  lemma {:induction false} SortLinesStable(ls: seq<InterpretedLine>, x: int, y: int)
    ensures AtPosition(SortLines(ls), x, y) == AtPosition(ls, x, y)
  {
    if ls != [] {
      SortLinesStable(ls[1..], x, y);
      InsertAtPosition(ls[0], SortLines(ls[1..]), x, y);
    }
  }

  // --- the name label and the output text -------------------------------------

  /** The texts of the lines one after another. */
  function Texts(ls: seq<InterpretedLine>): string {
    if ls == [] then "" else Texts(ls[..|ls| - 1]) + ls[|ls| - 1].text
  }

  lemma {:induction false} TextsAppend(a: seq<InterpretedLine>, b: seq<InterpretedLine>)
    ensures Texts(a + b) == Texts(a) + Texts(b)
  {
    if b == [] {
      assert a + b == a;
    } else {
      assert (a + b)[..|a + b| - 1] == a + b[..|b| - 1];
      TextsAppend(a, b[..|b| - 1]);
    }
  }

  /**
   * `first_line_is_name`: more than one line, and every later line starts more
   * than `NameOffset` pixels left of the first.
   */
  predicate FirstLineIsName(ls: seq<InterpretedLine>) {
    |ls| > 1 && forall j :: 1 <= j < |ls| ==> ls[0].x - ls[j].x > NameOffset
  }

  /** The output for sorted lines: "name: rest" when the first line is a name, every text otherwise. */
  function Render(ls: seq<InterpretedLine>): string {
    if FirstLineIsName(ls) then ls[0].text + ": " + Texts(ls[1..]) else Texts(ls)
  }

  /** What the OCR client returns for a response: `Ok` with the text, or the panic. */
  function OcrOutput(response: OcrResponse): Result<string, OcrError> {
    match response.regions
    case None => Ok("")
    case Some(regions) =>
      match CollectLines(RawLines(regions))
      case Err(e) => Err(e)
      case Ok(ls) => Ok(Render(SortLines(ls)))
  }


  /** Rendering only adds the ": " after the name: without it the output is the plain concatenation. */
  lemma RenderAddsLabel(ls: seq<InterpretedLine>)
    ensures !FirstLineIsName(ls) ==> Render(ls) == Texts(ls)
    ensures FirstLineIsName(ls) ==>
      var n := |ls[0].text|;
      && |Render(ls)| == |Texts(ls)| + 2
      && Render(ls)[..n] == ls[0].text && Render(ls)[n..n + 2] == ": "
      && Texts(ls) == Render(ls)[..n] + Render(ls)[n + 2..]
  {
    if FirstLineIsName(ls) {
      var n := |ls[0].text|;
      var rest := Texts(ls[1..]);
      assert Texts(ls) == ls[0].text + rest by {
        assert ls == [ls[0]] + ls[1..];
        TextsAppend([ls[0]], ls[1..]);
        assert Texts([ls[0]]) == ls[0].text by {
          assert [ls[0]][..0] == [];
        }
      }
      var r := Render(ls);
      assert r == ls[0].text + ": " + rest;
      assert r[..n] == ls[0].text;
      assert r[n..n + 2] == ": ";
      assert r[n + 2..] == rest;
    }
  }

  /** A line is the name label of `ls` when it lies above every other line and more than 60 px right of each. */
  predicate IsNameLine(ls: seq<InterpretedLine>, i: nat) {
    i < |ls| && forall j :: 0 <= j < |ls| && j != i ==> ls[i].y < ls[j].y && ls[i].x - ls[j].x > NameOffset
  }

  lemma MemberAt(s: seq<InterpretedLine>, l: InterpretedLine) returns (i: nat)
    requires l in multiset(s)
    ensures i < |s| && s[i] == l
  {
    assert l in s;
    i :| 0 <= i < |s| && s[i] == l;
  }

  /** Two distinct indices holding the same value make that value occur twice. */
  lemma {:induction false} TwiceInMultiset(s: seq<InterpretedLine>, i: nat, j: nat)
    requires i < j < |s| && s[i] == s[j]
    ensures multiset(s)[s[i]] >= 2
  {
    assert s == s[..i] + [s[i]] + s[i + 1..j] + [s[j]] + s[j + 1..];
  }

  /** A value that occurs at least twice occurs at an index other than `i`. */
  lemma SecondOccurrence(s: seq<InterpretedLine>, i: nat) returns (j: nat)
    requires i < |s| && multiset(s)[s[i]] >= 2
    ensures j < |s| && j != i && s[j] == s[i]
  {
    assert s == s[..i] + [s[i]] + s[i + 1..];
    assert s[i] in multiset(s[..i]) + multiset(s[i + 1..]);
    if s[i] in multiset(s[..i]) {
      var k := MemberAt(s[..i], s[i]);
      j := k;
    } else {
      var k := MemberAt(s[i + 1..], s[i]);
      j := i + 1 + k;
    }
  }

  lemma NameAfterSortOnlyIf(ls: seq<InterpretedLine>) returns (i: nat)
    requires FirstLineIsName(SortLines(ls))
    ensures IsNameLine(ls, i)
  {
    var s := SortLines(ls);
    SortLinesSorted(ls);
    i := MemberAt(ls, s[0]);
    forall j | 0 <= j < |ls| && j != i
      ensures ls[i].y < ls[j].y && ls[i].x - ls[j].x > NameOffset
    {
      var m := MemberAt(s, ls[j]);
      if m == 0 {
        if i < j { TwiceInMultiset(ls, i, j); } else { TwiceInMultiset(ls, j, i); }
        var m' := SecondOccurrence(s, 0);
        assert false;
      }
      assert Le(s[0], s[m]);
    }
  }

  lemma NameAfterSortIf(ls: seq<InterpretedLine>, i: nat)
    requires |ls| > 1 && IsNameLine(ls, i)
    ensures FirstLineIsName(SortLines(ls))
  {
    var s := SortLines(ls);
    SortLinesSorted(ls);
    var m0 := MemberAt(ls, s[0]);
    var mi := MemberAt(s, ls[i]);
    if m0 != i {
      assert false;
    }
    forall m | 1 <= m < |s|
      ensures s[0].x - s[m].x > NameOffset
    {
      var j := MemberAt(ls, s[m]);
      if j == i {
        TwiceInMultiset(s, 0, m);
        var k := SecondOccurrence(ls, i);
        assert false;
      }
    }
  }

  /**
   * After sorting, the first line is a name exactly when there are several lines
   * and one of them lies above all the others and more than 60 px right of each.
   */
  lemma NameAfterSort(ls: seq<InterpretedLine>)
    ensures FirstLineIsName(SortLines(ls)) <==> |ls| > 1 && exists i :: IsNameLine(ls, i)
  {
    if FirstLineIsName(SortLines(ls)) {
      var i := NameAfterSortOnlyIf(ls);
    }
    if |ls| > 1 && exists i :: IsNameLine(ls, i) {
      var i :| IsNameLine(ls, i);
      NameAfterSortIf(ls, i);
    }
  }

  /**
   * Words " hello ", "world" and "" make the line text "helloworld": each word
   * is trimmed and they are joined with no separator.
   */
  lemma WordsTextExample(hello: string, world: string)
    requires Trimmed(hello) && Trimmed(world)
    ensures WordsText(Some([Some(" " + hello + " "), Some(world), Some("")])) == hello + world
  {
    var a, b, c := Some(" " + hello + " "), Some(world), Some("");
    WordsTextThree(a, b, c);
    assert AllWhitespace(" ") && AllWhitespace("");
    TrimExact(" ", hello, " ");
    TrimExact("", world, "");
    assert "" + world + "" == world;
    TrimExact("", "", "");
    assert "" + "" + "" == "";
  }

  /** Three words: their trimmed texts one after another. */
  lemma WordsTextThree(a: Option<string>, b: Option<string>, c: Option<string>)
    ensures WordsText(Some([a, b, c])) == Trim(a.GetOr("")) + Trim(b.GetOr("")) + Trim(c.GetOr(""))
  {
    var ts := TrimmedWords([a, b, c]);
    assert ts == [Trim(a.GetOr("")), Trim(b.GetOr("")), Trim(c.GetOr(""))];
    assert Concat(ts) == Concat(ts[..2]) + ts[2];
    assert Concat(ts[..2]) == Concat(ts[..1]) + ts[1] by {
      assert ts[..2][..1] == ts[..1];
    }
    assert Concat(ts[..1]) == ts[0] by {
      assert ts[..1][..0] == [];
    }
  }

  /** Three lines already in reading order stay put; arriving last-first, they are put back in order. */
  lemma SortThreeLines(t: InterpretedLine, h: InterpretedLine, w: InterpretedLine)
    requires Cmp(t, h) == Less && Cmp(h, w) == Less
    ensures SortLines([t, h, w]) == [t, h, w]
    ensures SortLines([w, t, h]) == [t, h, w]
  {
    assert SortLines([w]) == [w] by { assert [w][1..] == []; }
    assert SortLines([h, w]) == [h, w] by {
      assert [h, w][1..] == [w];
      assert Insert(h, [w]) == [h, w];
    }
    assert SortLines([t, h, w]) == [t, h, w] by {
      assert [t, h, w][1..] == [h, w];
      assert Insert(t, [h, w]) == [t, h, w];
    }
    assert SortLines([h]) == [h] by { assert [h][1..] == []; }
    assert SortLines([t, h]) == [t, h] by {
      assert [t, h][1..] == [h];
      assert Insert(t, [h]) == [t, h];
    }
    assert Insert(w, [h]) == [h, w] by {
      assert [h][1..] == [];
      assert Insert(w, []) == [w];
    }
    assert Insert(w, [t, h]) == [t, h, w] by {
      assert [t, h][1..] == [h];
    }
    assert [w, t, h][1..] == [t, h];
  }

  lemma TextsTwo(h: InterpretedLine, w: InterpretedLine)
    ensures Texts([h, w]) == h.text + w.text
  {
    assert [h, w][..1] == [h];
    assert Texts([h, w]) == Texts([h]) + w.text;
    assert [h][..0] == [];
    assert Texts([h]) == Texts([]) + h.text;
  }

  /** Three lines whose first is a name render as "first: " and the other two texts. */
  lemma RenderNamedThree(t: InterpretedLine, h: InterpretedLine, w: InterpretedLine)
    requires t.x - h.x > NameOffset && t.x - w.x > NameOffset
    ensures Render([t, h, w]) == t.text + ": " + h.text + w.text
  {
    var ls := [t, h, w];
    assert ls[0] == t && ls[1] == h && ls[2] == w;
    assert FirstLineIsName(ls);
    assert ls[1..] == [h, w];
    TextsTwo(h, w);
  }

  /**
   * A title far right above a left-aligned block is a name label: lines at
   * x 200, 10 and 15 (y 0, 50, 100), say "Tanaka", "Hello" and "World", give
   * "Tanaka: HelloWorld", in whatever order they arrive.
   */
  lemma NameLabelExample(t: InterpretedLine, h: InterpretedLine, w: InterpretedLine)
    requires t.x == 200 && t.y == 0 && h.x == 10 && h.y == 50 && w.x == 15 && w.y == 100
    ensures Render(SortLines([t, h, w])) == t.text + ": " + h.text + w.text
    ensures SortLines([w, t, h]) == SortLines([t, h, w])
  {
    SortThreeLines(t, h, w);
    RenderNamedThree(t, h, w);
  }

  /** Without a 60 px offset there is no label: lines "A" at x 50 and "B" at x 10 give "AB". */
  lemma NoLabelExample(a: InterpretedLine, b: InterpretedLine)
    requires a.x == 50 && a.y == 0 && b.x == 10 && b.y == 50
    ensures Render(SortLines([a, b])) == a.text + b.text
  {
    assert SortLines([b]) == [b] by { assert [b][1..] == []; }
    assert SortLines([a, b]) == [a, b] by {
      assert [a, b][1..] == [b];
      assert Insert(a, [b]) == [a, b];
    }
    assert !FirstLineIsName([a, b]);
    TextsTwo(a, b);
  }

  /** No regions, or regions without lines, give the empty text. */
  lemma OcrOutputNoLines(response: OcrResponse)
    requires response.regions.Some? ==> RawLines(response.regions.value) == []
    ensures OcrOutput(response) == Ok("")
  {
  }

  /** A single line is output as its text alone: one line is never a name. */
  lemma OcrOutputSingleLine(response: OcrResponse, l: InterpretedLine)
    requires response.regions.Some? && |RawLines(response.regions.value)| == 1
    requires InterpretLine(RawLines(response.regions.value)[0]) == Ok(l)
    ensures OcrOutput(response) == Ok(l.text)
  {
    var raw := RawLines(response.regions.value);
    var none: seq<OcrLine> := [];
    assert raw == none + [raw[0]];
    assert CollectLines(none) == Ok([]);
    CollectLinesStep(none, raw[0], l);
    var empty: seq<InterpretedLine> := [];
    assert CollectLines(none).value == empty;
    assert empty + [l] == [l];
    assert CollectLines(raw) == Ok([l]);
    assert SortLines([l]) == [l] by {
      assert [l][1..] == [];
    }
    assert Texts([l]) == l.text by {
      assert [l][..0] == [];
    }
    assert Render([l]) == l.text;
    assert OcrOutput(response) == Ok(Render(SortLines([l])));
  }

  /** A line that does not interpret makes the whole response fail. */
  lemma OcrOutputFailsOnBadLine(response: OcrResponse, k: nat)
    requires response.regions.Some? && k < |RawLines(response.regions.value)|
    requires InterpretLine(RawLines(response.regions.value)[k]).Err?
    ensures OcrOutput(response).Err?
  {
    var raw := RawLines(response.regions.value);
    if CollectLines(raw).Ok? {
      CollectLinesOk(raw, k);
      assert false;
    }
  }

  /** Every line interpreting is enough for the reconstruction to succeed. */
  lemma OcrOutputSucceeds(response: OcrResponse)
    requires response.regions.Some? ==>
      forall k :: 0 <= k < |RawLines(response.regions.value)| ==> InterpretLine(RawLines(response.regions.value)[k]).Ok?
    ensures OcrOutput(response).Ok?
  {
    if response.regions.Some? {
      CollectLinesComplete(RawLines(response.regions.value));
    }
  }

  // ===========================================================================
  // OCR: the reconstruction as the client runs it
  // ===========================================================================

  /** Line `j` of region `i` sits between the lines before it and the lines after it. */
  lemma {:induction false} RawLinesSplitAt(regions: seq<OcrRegion>, i: nat, j: nat)
    requires i < |regions| && j < |regions[i].lines.GetOr([])|
    ensures var lines := regions[i].lines.GetOr([]);
      RawLines(regions) == (RawLines(regions[..i]) + lines[..j]) + [lines[j]] + (lines[j + 1..] + RawLines(regions[i + 1..]))
  {
    var lines := regions[i].lines.GetOr([]);
    assert regions == regions[..i] + [regions[i]] + regions[i + 1..];
    RawLinesAppend(regions[..i] + [regions[i]], regions[i + 1..]);
    RawLinesAppend(regions[..i], [regions[i]]);
    assert RawLines([regions[i]]) == lines by {
      assert [regions[i]][..0] == [];
    }
    assert lines == lines[..j] + [lines[j]] + lines[j + 1..];
  }

  /** The failing line at (i, j), after lines that all interpret, decides the outcome of the whole response. */
  lemma FailingLineDecides(regions: seq<OcrRegion>, i: nat, j: nat)
    requires i < |regions| && j < |regions[i].lines.GetOr([])|
    requires CollectLines(RawLines(regions[..i]) + regions[i].lines.GetOr([])[..j]).Ok?
    requires InterpretLine(regions[i].lines.GetOr([])[j]).Err?
    ensures CollectLines(RawLines(regions)) == Err(InterpretLine(regions[i].lines.GetOr([])[j]).error)
  {
    var lines := regions[i].lines.GetOr([]);
    RawLinesSplitAt(regions, i, j);
    CollectLinesFailsAt(RawLines(regions[..i]) + lines[..j], lines[j], lines[j + 1..] + RawLines(regions[i + 1..]));
  }

  /**
   * The body of the inner `for` loop: the bounding box parsed into a new line
   * (either `unwrap` may panic), then the trimmed words pushed onto its text.
   */
  method InterpretOne(line: OcrLine) returns (r: Result<InterpretedLine, OcrError>)
    ensures r == InterpretLine(line)
  {
    if line.boundingBox.None? {
      return Err(MissingBoundingBox);
    }
    var parsed := FromStr(line.boundingBox.value);
    if parsed.Err? {
      return Err(MalformedBoundingBox);
    }
    var interpretedLine := parsed.value;
    interpretedLine := interpretedLine.(text := interpretedLine.text + WordsText(line.words));
    return Ok(interpretedLine);
  }

  /** The line at `j` splits `before + lines` into what precedes it and what follows it. */
  lemma SplitAtLine(before: seq<OcrLine>, lines: seq<OcrLine>, j: nat)
    requires j < |lines|
    ensures before + lines == (before + lines[..j]) + [lines[j]] + lines[j + 1..]
    ensures before + lines[..j + 1] == (before + lines[..j]) + [lines[j]]
  {
    assert lines == lines[..j] + [lines[j]] + lines[j + 1..];
    assert lines[..j + 1] == lines[..j] + [lines[j]];
  }

  /**
   * The inner `for` loop of `AzureOcrClient::make_request`: the lines of one
   * region are interpreted one by one and pushed after `interpretedLines`, the
   * lines gathered from the raw lines `before`; the first failure ends it.
   */
  method GatherRegion(before: seq<OcrLine>, lines: seq<OcrLine>, interpretedLines: seq<InterpretedLine>)
    returns (r: Result<seq<InterpretedLine>, OcrError>)
    requires CollectLines(before) == Ok(interpretedLines)
    ensures r == CollectLines(before + lines)
  {
    var gathered := interpretedLines;
    var j := 0;
    assert before + lines[..j] == before;
    while j < |lines|
      invariant 0 <= j <= |lines|
      invariant CollectLines(before + lines[..j]) == Ok(gathered)
    {
      var interpreted := InterpretOne(lines[j]);
      SplitAtLine(before, lines, j);
      if interpreted.Err? {
        CollectLinesFailsAt(before + lines[..j], lines[j], lines[j + 1..]);
        return Err(interpreted.error);
      }
      CollectLinesStep(before + lines[..j], lines[j], interpreted.value);
      gathered := gathered + [interpreted.value];
      j := j + 1;
    }
    assert lines[..j] == lines;
    return Ok(gathered);
  }

  /** The raw lines of the first `i + 1` regions: those of the first `i`, then region `i`'s. */
  lemma RawLinesNext(regions: seq<OcrRegion>, i: nat)
    requires i < |regions|
    ensures RawLines(regions[..i + 1]) == RawLines(regions[..i]) + regions[i].lines.GetOr([])
  {
    assert regions[..i + 1][..i] == regions[..i];
  }

  /**
   * The outer `for` loop of `AzureOcrClient::make_request`: every line of every
   * region becomes an `InterpretedLine`, in order, or the first failure ends
   * the reconstruction.
   */
  method GatherLines(regions: seq<OcrRegion>) returns (r: Result<seq<InterpretedLine>, OcrError>)
    ensures r == CollectLines(RawLines(regions))
  {
    var interpretedLines: seq<InterpretedLine> := [];
    var i := 0;
    while i < |regions|
      invariant 0 <= i <= |regions|
      invariant CollectLines(RawLines(regions[..i])) == Ok(interpretedLines)
    {
      var gathered := GatherRegion(RawLines(regions[..i]), regions[i].lines.GetOr([]), interpretedLines);
      RawLinesNext(regions, i);
      if gathered.Err? {
        CollectErrExtends(Interpretations(RawLines(regions[..i + 1])), Interpretations(RawLines(regions[i + 1..])));
        assert regions == regions[..i + 1] + regions[i + 1..];
        RawLinesAppend(regions[..i + 1], regions[i + 1..]);
        InterpretationsAppend(RawLines(regions[..i + 1]), RawLines(regions[i + 1..]));
        return gathered;
      }
      interpretedLines := gathered.value;
      i := i + 1;
    }
    assert regions[..i] == regions;
    return Ok(interpretedLines);
  }

  /**
   * The body of `AzureOcrClient::make_request` after the HTTP call: gather the
   * lines of every region, sort them, decide whether the first is a name, and
   * build the output.
   */
  method ReconstructText(response: OcrResponse) returns (r: Result<string, OcrError>)
    ensures r == OcrOutput(response)
  {
    var interpretedLines: seq<InterpretedLine> := [];
    if response.regions.Some? {
      var gathered := GatherLines(response.regions.value);
      if gathered.Err? {
        return Err(gathered.error);
      }
      interpretedLines := gathered.value;
    }

    interpretedLines := SortLines(interpretedLines);
    var firstLineIsName := DetectName(interpretedLines);
    var output := BuildOutput(interpretedLines, firstLineIsName);
    return Ok(output);
  }

  /** `first_line_is_name`: more than one line, and `all` later lines far enough left of the first. */
  method DetectName(interpretedLines: seq<InterpretedLine>) returns (firstLineIsName: bool)
    ensures firstLineIsName == FirstLineIsName(interpretedLines)
  {
    firstLineIsName := false;
    if |interpretedLines| > 1 {
      var first := interpretedLines[0];
      var all := true;
      var k := 1;
      while k < |interpretedLines| && all
        invariant 1 <= k <= |interpretedLines|
        invariant all <==> forall m :: 1 <= m < k ==> first.x - interpretedLines[m].x > NameOffset
      {
        all := first.x - interpretedLines[k].x > NameOffset;
        k := k + 1;
      }
      firstLineIsName := all;
    }
  }

  /** The `push_str` calls that build the output from the sorted lines. */
  method BuildOutput(interpretedLines: seq<InterpretedLine>, firstLineIsName: bool) returns (output: string)
    requires firstLineIsName == FirstLineIsName(interpretedLines)
    ensures output == Render(interpretedLines)
  {
    output := "";
    if firstLineIsName {
      output := output + interpretedLines[0].text + ": ";
      var k := 1;
      while k < |interpretedLines|
        invariant 1 <= k <= |interpretedLines|
        invariant output == interpretedLines[0].text + ": " + Texts(interpretedLines[1..k])
      {
        assert interpretedLines[1..k + 1][..k - 1] == interpretedLines[1..k];
        output := output + interpretedLines[k].text;
        k := k + 1;
      }
      assert interpretedLines[1..k] == interpretedLines[1..];
    } else {
      var k := 0;
      while k < |interpretedLines|
        invariant 0 <= k <= |interpretedLines|
        invariant output == Texts(interpretedLines[..k])
      {
        assert interpretedLines[..k + 1][..k] == interpretedLines[..k];
        output := output + interpretedLines[k].text;
        k := k + 1;
      }
      assert interpretedLines[..k] == interpretedLines;
    }
  }

  // ===========================================================================
  // Translator: request and dispatch
  // ===========================================================================

  /** An element of `response[0]["translations"]`: its `to` member as a string, and its `text` member. */
  datatype TranslationEntry = TranslationEntry(to: Option<string>, text: JsonValue)

  /** The languages' codes, in order. */
  function Codes(langs: seq<TextToSpeechLanguage>): (r: seq<string>)
    ensures |r| == |langs|
    ensures forall i :: 0 <= i < |langs| ==> r[i] == Code(langs[i])
  {
    if langs == [] then [] else Codes(langs[..|langs| - 1]) + [Code(langs[|langs| - 1])]
  }

  /** The `to=` value of the request: the codes joined with ",". */
  function LanguageList(langs: seq<TextToSpeechLanguage>): string {
    Join(Codes(langs), ',')
  }

  /** Splitting the `to=` value at its commas gives back the requested languages' codes. */
  lemma LanguageListSplit(langs: seq<TextToSpeechLanguage>)
    requires langs != []
    ensures Split(LanguageList(langs), ',') == Codes(langs)
  {
    JoinSplit(Codes(langs), ',');
  }

  /** The language an entry is filed under: its `to`, English when there is none. */
  function TargetCode(e: TranslationEntry): string {
    e.to.GetOr("en")
  }

  /** One step of the `for_each`: files the entry's text under its language, or ignores it. */
  function FileEntry(r: TranslationResponse, e: TranslationEntry): TranslationResponse {
    var code := TargetCode(e);
    if code == "fi" then r.(fiTranslation := ValueToString(e.text))
    else if code == "en" then r.(enTranslation := ValueToString(e.text))
    else if code == "sv" then r.(svTranslation := ValueToString(e.text))
    else r
  }

  /** The translation response built from the entries, one after another. */
  function Dispatch(entries: seq<TranslationEntry>): TranslationResponse {
    if entries == [] then NoTranslation
    else FileEntry(Dispatch(entries[..|entries| - 1]), entries[|entries| - 1])
  }

  /** The index of the last entry filed under `code`, if any. */
  function LastFor(entries: seq<TranslationEntry>, code: string): (r: Option<nat>)
    ensures r.Some? ==>
      && r.value < |entries| && TargetCode(entries[r.value]) == code
      && (forall j :: r.value < j < |entries| ==> TargetCode(entries[j]) != code)
    ensures r.None? ==> forall j :: 0 <= j < |entries| ==> TargetCode(entries[j]) != code
  {
    if entries == [] then None
    else if TargetCode(entries[|entries| - 1]) == code then Some(|entries| - 1)
    else LastFor(entries[..|entries| - 1], code)
  }

  /**
   * Each of English, Finnish and Swedish gets the rendered text of the last entry
   * filed under its code, and "" when no entry is; a missing `to` counts as English.
   */
  lemma {:induction false} DispatchField(entries: seq<TranslationEntry>, lang: TextToSpeechLanguage)
    requires lang != Japanese
    ensures Field(Dispatch(entries), lang) ==
      match LastFor(entries, Code(lang))
      case None => ""
      case Some(k) => ValueToString(entries[k].text)
  {
    if entries != [] {
      DispatchField(entries[..|entries| - 1], lang);
    }
  }

  /** Entries for any other language change nothing. */
  lemma DispatchIgnores(entries: seq<TranslationEntry>, e: TranslationEntry)
    requires TargetCode(e) != "fi" && TargetCode(e) != "en" && TargetCode(e) != "sv"
    ensures Dispatch(entries + [e]) == Dispatch(entries)
  {
    assert (entries + [e])[..|entries|] == entries;
  }

  /** Only the entry's language changes: the other two fields stay as they were. */
  lemma DispatchLastWins(entries: seq<TranslationEntry>, e: TranslationEntry, lang: TextToSpeechLanguage)
    requires lang != Japanese && TargetCode(e) == Code(lang)
    ensures Field(Dispatch(entries + [e]), lang) == ValueToString(e.text)
    ensures forall other :: other != lang ==> Field(Dispatch(entries + [e]), other) == Field(Dispatch(entries), other)
  {
    assert (entries + [e])[..|entries|] == entries;
  }

  /**
   * `AzureTranslatorClient::make_request` after the HTTP call. No output language:
   * no request and three empty translations. Otherwise the request asks for the
   * codes in order, and the `translations` of the answer are filed one by one;
   * an answer without them leaves every translation empty.
   */
  method Translate(outputLanguages: seq<TextToSpeechLanguage>, translations: Option<seq<TranslationEntry>>)
    returns (toList: Option<string>, translationResponse: TranslationResponse)
    ensures outputLanguages == [] ==> toList == None && translationResponse == NoTranslation
    ensures outputLanguages != [] ==>
      toList == Some(LanguageList(outputLanguages)) && translationResponse == Dispatch(translations.GetOr([]))
  {
    if outputLanguages == [] {
      return None, NoTranslation;
    }
    toList := Some(LanguageList(outputLanguages));
    translationResponse := NoTranslation;
    if translations.Some? {
      var ts := translations.value;
      var k := 0;
      while k < |ts|
        invariant 0 <= k <= |ts|
        invariant translationResponse == Dispatch(ts[..k])
      {
        var translation := ts[k];
        var target := TargetCode(translation);
        if target == "fi" {
          translationResponse := translationResponse.(fiTranslation := ValueToString(translation.text));
        } else if target == "en" {
          translationResponse := translationResponse.(enTranslation := ValueToString(translation.text));
        } else if target == "sv" {
          translationResponse := translationResponse.(svTranslation := ValueToString(translation.text));
        }
        assert ts[..k + 1][..k] == ts[..k];
        k := k + 1;
      }
      assert ts[..k] == ts;
    }
  }

  // ===========================================================================
  // Text to speech: the SSML body
  // ===========================================================================

  /** The `xml:lang` of the `speak` element; Swedish requests carry the Finnish one. */
  function SpeakLocale(lang: TextToSpeechLanguage): string {
    match lang
    case Japanese => "ja-JP"
    case English => "en-US"
    case Finnish => "fi-FI"
    case Swedish => "fi-FI"
  }

  /** The `xml:lang` of the `voice` element. */
  function VoiceLocale(lang: TextToSpeechLanguage): string {
    match lang
    case Japanese => "ja-JP"
    case English => "en-US"
    case Finnish => "fi-FI"
    case Swedish => "sv-SV"
  }

  /** The neural voice asked for. */
  function VoiceName(lang: TextToSpeechLanguage): string {
    match lang
    case Japanese => "ja-JP-NanamiNeural"
    case English => "en-US-AvaMultilingualNeural"
    case Finnish => "fi-FI-SelmaNeural"
    case Swedish => "sv-SV-SelmaNeural"
  }

  function SsmlOpening(lang: TextToSpeechLanguage): string {
    "<speak version='1.0' xml:lang='" + SpeakLocale(lang) + "'><voice xml:lang='" + VoiceLocale(lang)
      + "' xml:gender='Female' name='" + VoiceName(lang) + "'>"
  }

  const SsmlClosing: string := "</voice></speak>"

  /** The body `AzureTextToSpeechClient::make_request` posts: the text inside one female voice of the language. */
  function SsmlBody(text: string, lang: TextToSpeechLanguage): string {
    SsmlOpening(lang) + text + SsmlClosing
  }

  /** The text a body for `lang` speaks, when it has that language's opening and the closing. */
  function SpokenText(body: string, lang: TextToSpeechLanguage): Option<string> {
    var o := SsmlOpening(lang);
    if |body| >= |o| + |SsmlClosing| && body[..|o|] == o && body[|body| - |SsmlClosing|..] == SsmlClosing
    then Some(body[|o|..|body| - |SsmlClosing|])
    else None
  }

  /** The body carries the text verbatim: it is spoken back unchanged. */
  lemma SpokenTextOfBody(text: string, lang: TextToSpeechLanguage)
    ensures SpokenText(SsmlBody(text, lang), lang) == Some(text)
  {
    var o := SsmlOpening(lang);
    var b := SsmlBody(text, lang);
    assert b[..|o|] == o;
    assert b[|b| - |SsmlClosing|..] == SsmlClosing;
    assert b[|o|..|b| - |SsmlClosing|] == text;
  }

  /**
   * The voice always belongs to the language: its locale starts with the
   * language's code and names the voice. The document language agrees with it
   * except for Swedish, whose requests declare Finnish.
   */
  lemma VoiceMatchesLanguage(lang: TextToSpeechLanguage)
    ensures VoiceLocale(lang)[..2] == Code(lang)
    ensures VoiceName(lang)[..|VoiceLocale(lang)| + 1] == VoiceLocale(lang) + "-"
    ensures SpeakLocale(lang) == VoiceLocale(lang) <==> lang != Swedish
    ensures lang == Swedish ==> SpeakLocale(lang) == SpeakLocale(Finnish)
  {
  }
}
