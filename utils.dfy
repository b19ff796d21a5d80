/**
 * The shared types of the program: the text-to-speech language tags, the
 * translation result, the interactive usage options, and the OCR line with
 * its bounding box, its parser and its reading-order comparison.
 */
module Utils {
  import opened Wrappers
  import opened RustStr

  // ---------------------------------------------------------------------------
  // Languages
  // ---------------------------------------------------------------------------

  datatype TextToSpeechLanguage = Japanese | English | Finnish | Swedish

  /** `Display for TextToSpeechLanguage`: the two-letter language code. */
  function Code(lang: TextToSpeechLanguage): (code: string)
    ensures |code| == 2 && 'a' <= code[0] <= 'z' && 'a' <= code[1] <= 'z'
  {
    match lang
    case Japanese => "ja"
    case English => "en"
    case Finnish => "fi"
    case Swedish => "sv"
  }

  /** No two languages share a code, so a code names its language. */
  lemma CodeInjective(a: TextToSpeechLanguage, b: TextToSpeechLanguage)
    ensures Code(a) == Code(b) <==> a == b
  {
  }

  // ---------------------------------------------------------------------------
  // Plain records
  // ---------------------------------------------------------------------------

  /** The three translations a translator hands back; "" means none. */
  datatype TranslationResponse = TranslationResponse(enTranslation: string, fiTranslation: string, svTranslation: string)

  const NoTranslation := TranslationResponse("", "", "")

  /** The field of the response that holds a language's translation; Japanese has none. */
  function Field(r: TranslationResponse, lang: TextToSpeechLanguage): string {
    match lang
    case English => r.enTranslation
    case Finnish => r.fiTranslation
    case Swedish => r.svTranslation
    case Japanese => ""
  }

  /** The behaviour flags toggled between captures. */
  datatype UsageOptions = UsageOptions(
    playbackEn: bool,
    playbackFi: bool,
    useTranslation: bool,
    halfScreen: bool,
    debugPrinting: bool,
    colorCorrection: bool)

  // ---------------------------------------------------------------------------
  // InterpretedLine
  // ---------------------------------------------------------------------------

  /**
   * One OCR line: its bounding box and the text gathered for it. The fields are
   * mathematical integers; every line the parser produces has them in i32 range.
   * Dafny's `==` on this datatype compares all five fields, as the derived
   * `PartialEq` does.
   */
  datatype InterpretedLine = InterpretedLine(x: int, y: int, width: int, height: int, text: string)

  predicate InI32Range(l: InterpretedLine) {
    IsI32(l.x) && IsI32(l.y) && IsI32(l.width) && IsI32(l.height)
  }

  /** `InterpretedLine::new`: a box with the given geometry and no text yet. */
  function NewLine(x: int, y: int, width: int, height: int): (l: InterpretedLine)
    requires IsI32(x) && IsI32(y) && IsI32(width) && IsI32(height)
    ensures InI32Range(l)
    ensures l.x == x && l.y == y && l.width == width && l.height == height && l.text == ""
  {
    InterpretedLine(x, y, width, height, "")
  }

  /**
   * The fields of a bounding-box string, when it is well formed: exactly four
   * comma-separated pieces, each accepted by `parse::<i32>`.
   */
  predicate WellFormedBox(s: string) {
    var p := Split(s, ',');
    |p| == 4 && forall i :: 0 <= i < 4 ==> ParseI32(p[i]).Some?
  }

  /**
   * `InterpretedLine::from_str`: parses "x,y,width,height". Any other number
   * of comma-separated pieces, or a piece that is not an i32, is `Err(())`.
   */
  function FromStr(s: string): Result<InterpretedLine, ()> {
    var p := Split(s, ',');
    if |p| != 4 then Err(())
    else
      match (ParseI32(p[0]), ParseI32(p[1]), ParseI32(p[2]), ParseI32(p[3]))
      case (Some(x), Some(y), Some(w), Some(h)) => Ok(NewLine(x, y, w, h))
      case _ => Err(())
  }

  /**
   * The parse succeeds exactly on a well-formed box, and then holds the four
   * numbers in order, each in i32 range, with empty text.
   */
  lemma FromStrSpec(s: string)
    ensures FromStr(s).Ok? <==> WellFormedBox(s)
    ensures FromStr(s).Ok? ==>
      var p := Split(s, ','); var l := FromStr(s).value;
      && InI32Range(l)
      && Some(l.x) == ParseI32(p[0]) && Some(l.y) == ParseI32(p[1])
      && Some(l.width) == ParseI32(p[2]) && Some(l.height) == ParseI32(p[3])
      && l.text == ""
  {
    var p := Split(s, ',');
    if |p| == 4 {
      var fields := (ParseI32(p[0]), ParseI32(p[1]), ParseI32(p[2]), ParseI32(p[3]));
      if fields.0.Some? && fields.1.Some? && fields.2.Some? && fields.3.Some? {
        assert FromStr(s) == Ok(NewLine(fields.0.value, fields.1.value, fields.2.value, fields.3.value));
      } else {
        assert FromStr(s) == Err(());
        assert !WellFormedBox(s) by {
          assert !(ParseI32(p[0]).Some? && ParseI32(p[1]).Some? && ParseI32(p[2]).Some? && ParseI32(p[3]).Some?);
        }
      }
    }
  }

  /** The bounding-box text of a line, as the OCR service writes it. */
  function FormatBox(l: InterpretedLine): string {
    Join([ShowInt(l.x), ShowInt(l.y), ShowInt(l.width), ShowInt(l.height)], ',')
  }

  /** Parsing a rendered box gives back its geometry with empty text. */
  lemma FromStrFormatBox(l: InterpretedLine)
    requires InI32Range(l)
    ensures FromStr(FormatBox(l)) == Ok(l.(text := ""))
  {
    var parts := [ShowInt(l.x), ShowInt(l.y), ShowInt(l.width), ShowInt(l.height)];
    ShowIntHasNoComma(l.x);
    ShowIntHasNoComma(l.y);
    ShowIntHasNoComma(l.width);
    ShowIntHasNoComma(l.height);
    JoinSplit(parts, ',');
    ParseShowInt(l.x);
    ParseShowInt(l.y);
    ParseShowInt(l.width);
    ParseShowInt(l.height);
  }

  lemma ShowTwoDigits(n: nat)
    requires 10 <= n < 100
    ensures ShowInt(n) == [DigitChar(n / 10), DigitChar(n % 10)]
  {
    assert ShowNat(n) == ShowNat(n / 10) + [DigitChar(n % 10)];
  }

  /** A well-formed box parses to its four numbers with empty text: "10,20,30,40" gives 10, 20, 30, 40. */
  lemma FromStrFourFields(box: string)
    requires box == "10,20,30,40"
    ensures FromStr(box) == Ok(InterpretedLine(10, 20, 30, 40, ""))
  {
    var l := InterpretedLine(10, 20, 30, 40, "");
    ShowTwoDigits(10);
    ShowTwoDigits(20);
    ShowTwoDigits(30);
    ShowTwoDigits(40);
    assert ShowInt(10) == "10" && ShowInt(20) == "20" && ShowInt(30) == "30" && ShowInt(40) == "40";
    JoinFour("10", "20", "30", "40");
    assert FormatBox(l) == box;
    FromStrFormatBox(l);
  }

  lemma JoinFour(a: string, b: string, c: string, d: string)
    ensures Join([a, b, c, d], ',') == a + [','] + b + [','] + c + [','] + d
  {
    assert [a, b, c, d][1..] == [b, c, d];
    assert [b, c, d][1..] == [c, d];
    assert [c, d][1..] == [d];
    assert Join([c, d], ',') == c + [','] + d;
    assert Join([b, c, d], ',') == b + [','] + (c + [','] + d);
    assert Join([a, b, c, d], ',') == a + [','] + (b + [','] + (c + [','] + d));
  }

  /** Any number of comma-free fields other than four is rejected. */
  lemma {:induction false} FromStrRejectsFieldCount(fields: seq<string>)
    requires |fields| >= 1 && |fields| != 4
    requires forall i :: 0 <= i < |fields| ==> ',' !in fields[i]
    ensures FromStr(Join(fields, ',')).Err?
  {
    JoinSplit(fields, ',');
  }

  /** Four comma-free fields of which one is not an i32 are rejected. */
  lemma {:induction false} FromStrRejectsBadField(fields: seq<string>, i: nat)
    requires |fields| == 4 && i < 4
    requires forall k :: 0 <= k < |fields| ==> ',' !in fields[k]
    requires ParseI32(fields[i]).None?
    ensures FromStr(Join(fields, ',')).Err?
  {
    var s := Join(fields, ',');
    JoinSplit(fields, ',');
    assert !WellFormedBox(s) by {
      assert Split(s, ',')[i] == fields[i];
    }
    FromStrSpec(s);
  }

  /**
   * An empty field, a lone sign, or a field with a character other than a digit
   * (a sign is allowed only in front) is not an i32.
   */
  lemma ParseI32Rejects(s: string, k: nat)
    requires || s == [] || s == "+" || s == "-"
             || (k < |s| && !IsDigit(s[k]) && !(k == 0 && (s[0] == '+' || s[0] == '-')))
    ensures ParseI32(s).None?
  {
    if s != [] && s != "+" && s != "-" {
      if s[0] == '+' || s[0] == '-' {
        assert Magnitude(s)[k - 1] == s[k];
      } else {
        assert Magnitude(s)[k] == s[k];
      }
    }
  }

  // ---------------------------------------------------------------------------
  // Ordering
  // ---------------------------------------------------------------------------

  datatype Ordering = Less | Equal | Greater {
    function Reverse(): Ordering {
      match this
      case Less => Greater
      case Equal => Equal
      case Greater => Less
    }
  }

  /** `Ord::cmp`: reading order, by `y` and then by `x`; size and text play no part. */
  function Cmp(a: InterpretedLine, b: InterpretedLine): (r: Ordering)
    ensures r == Less <==> a.y < b.y || (a.y == b.y && a.x < b.x)
    ensures r == Equal <==> a.y == b.y && a.x == b.x
    ensures r == Greater <==> a.y > b.y || (a.y == b.y && a.x > b.x)
  {
    if a.y > b.y then Greater
    else if a.y < b.y then Less
    else if a.x > b.x then Greater
    else if a.x < b.x then Less
    else Equal
  }

  /** `PartialOrd::partial_cmp`: always defined, and equal to `cmp`. */
  function PartialCmp(a: InterpretedLine, b: InterpretedLine): (r: Option<Ordering>)
    ensures r.Some? && r.value == Cmp(a, b)
  {
    Some(Cmp(a, b))
  }

  /** Swapping the arguments reverses the answer. */
  lemma CmpAntisymmetric(a: InterpretedLine, b: InterpretedLine)
    ensures Cmp(a, b) == Cmp(b, a).Reverse()
  {
  }

  lemma CmpTransitive(a: InterpretedLine, b: InterpretedLine, c: InterpretedLine, o: Ordering)
    requires Cmp(a, b) == o && Cmp(b, c) == o
    ensures Cmp(a, c) == o
  {
  }

  /** Width, height and text never change the comparison. */
  lemma CmpIgnoresSizeAndText(a: InterpretedLine, b: InterpretedLine, w: int, h: int, t: string)
    ensures Cmp(a.(width := w, height := h, text := t), b) == Cmp(a, b)
    ensures Cmp(a, b.(width := w, height := h, text := t)) == Cmp(a, b)
  {
  }

  /**
   * `==` is finer than `cmp`: lines equal as values compare `Equal`, but two
   * lines at the same place with different text compare `Equal` and are not `==`.
   */
  lemma EqualityFinerThanCmp(a: InterpretedLine, b: InterpretedLine)
    ensures a == b ==> Cmp(a, b) == Equal
    ensures Cmp(a, b) == Equal ==> (a == b <==> a.width == b.width && a.height == b.height && a.text == b.text)
  {
  }
}
