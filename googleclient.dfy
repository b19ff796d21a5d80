/**
 * The Google Cloud client: the project name read from the `gcloud config
 * list` output, the text gathered from an image-annotation answer, and the
 * English translation gathered from a translation answer.
 */
module GoogleClient {
  import opened Wrappers
  import opened RustStr
  import opened Utils

  // ===========================================================================
  // The project name
  // ===========================================================================

  /** The key the project line of the configuration starts with. */
  const ProjectKey: string := "project = "

  /**
   * `extract_google_project`: everything after the first "project = ", or
   * `None` when the configuration has no such text.
   */
  function ExtractGoogleProject(config: string): (r: Option<string>)
    ensures r.None? <==> forall i: nat :: !MatchAt(config, ProjectKey, i)
    ensures r.Some? ==>
      var start := |config| - |r.value| - |ProjectKey|;
      && |r.value| + |ProjectKey| <= |config|
      && MatchAt(config, ProjectKey, start)
      && (forall j: nat :: j < start ==> !MatchAt(config, ProjectKey, j))
      && r.value == config[start + |ProjectKey|..]
  {
    match Find(config, ProjectKey)
    case None => None
    case Some(projectStart) => Some(config[projectStart + 10..])
  }

  /** The key sits at `|pre|` and nowhere before: what follows is what is extracted. */
  lemma ExtractAfterFirstKey(pre: string, rest: string)
    requires forall j: nat :: j < |pre| ==> !MatchAt(pre + ProjectKey + rest, ProjectKey, j)
    ensures ExtractGoogleProject(pre + ProjectKey + rest) == Some(rest)
  {
    var config := pre + ProjectKey + rest;
    assert config[|pre|..|pre| + |ProjectKey|] == ProjectKey;
    assert MatchAt(config, ProjectKey, |pre|);
    assert config[|pre| + |ProjectKey|..] == rest;
  }

  /**
   * The value `GoogleCloudClient::new` puts in the `x-goog-user-project` header:
   * the extracted text, trimmed; `None` where the `unwrap` panics.
   */
  function ProjectHeader(config: string): (r: Option<string>)
    ensures r.Some? <==> ExtractGoogleProject(config).Some?
    ensures r.Some? ==> Trimmed(r.value)
  {
    match ExtractGoogleProject(config)
    case None => None
    case Some(rest) => Some(Trim(rest))
  }

  /** The first line of `s`, without its line break. */
  function FirstLine(s: string): (r: string)
    ensures '\n' !in r
    ensures |r| <= |s| && r == s[..|r|]
    ensures |r| < |s| ==> s[|r|] == '\n'
  {
    if s == [] || s[0] == '\n' then ""
    else
      var t := FirstLine(s[1..]);
      assert [s[0]] + t == s[..|t| + 1];
      [s[0]] + t
  }

  /** The project name: the rest of the project line, trimmed. */
  function ProjectId(config: string): (r: Option<string>)
    ensures r.Some? <==> ExtractGoogleProject(config).Some?
    ensures r.Some? ==> Trimmed(r.value) && '\n' !in r.value
  {
    match ExtractGoogleProject(config)
    case None => None
    case Some(rest) =>
      var t := Trim(FirstLine(rest));
      assert forall k :: 0 <= k < |t| ==> t[k] in FirstLine(rest);
      Some(t)
  }

  lemma {:induction false} FirstLineOf(id: string, post: string)
    requires '\n' !in id
    ensures FirstLine(id + "\n" + post) == id
  {
    if id != [] {
      assert id[0] in id;
      assert (id + "\n" + post)[1..] == id[1..] + "\n" + post;
      FirstLineOf(id[1..], post);
      assert [id[0]] + id[1..] == id;
    }
  }

  /** A configuration whose first project line reads `project = <id>` names the project `id`. */
  lemma ProjectIdOfConfig(pre: string, id: string, post: string)
    requires forall j: nat :: j < |pre| ==> !MatchAt(pre + ProjectKey + (id + "\n" + post), ProjectKey, j)
    requires Trimmed(id) && '\n' !in id
    ensures ProjectId(pre + ProjectKey + (id + "\n" + post)) == Some(id)
  {
    ExtractAfterFirstKey(pre, id + "\n" + post);
    FirstLineOf(id, post);
    TrimExact("", id, "");
    assert "" + id + "" == id;
  }

  /**
   * As written, the header value runs on past the project line: whenever a
   * non-blank line follows, the value holds a line break, so it is not the
   * project name.
   */
  lemma ProjectHeaderRunsOn(pre: string, id: string, post: string, k: nat)
    requires forall j: nat :: j < |pre| ==> !MatchAt(pre + ProjectKey + (id + "\n" + post), ProjectKey, j)
    requires id != [] && !IsWhitespace(id[0])
    requires k < |post| && !IsWhitespace(post[k])
    ensures ProjectHeader(pre + ProjectKey + (id + "\n" + post)).Some?
    ensures var h := ProjectHeader(pre + ProjectKey + (id + "\n" + post)).value;
      && |id| + 1 + k < |h|
      && h[..|id|] == id && h[|id|] == '\n' && h[|id| + 1 + k] == post[k]
  {
    ExtractAfterFirstKey(pre, id + "\n" + post);
    TrimRunsOn(id, post, k);
  }

  /**
   * Trimming a non-blank first line, a line break and a non-blank rest keeps
   * the first line whole, the line break, and the rest up to its character `k`.
   */
  lemma TrimRunsOn(id: string, post: string, k: nat)
    requires id != [] && !IsWhitespace(id[0])
    requires k < |post| && !IsWhitespace(post[k])
    ensures var r := Trim(id + "\n" + post);
      && |id| + 1 + k < |r|
      && r[..|id|] == id && r[|id|] == '\n' && r[|id| + 1 + k] == post[k]
  {
    var s := id + "\n" + post;
    var m := |id| + 1 + k;
    assert s[0] == id[0] && s[m] == post[k];
    TrimKeeps(s, 0, m);
    var r := Trim(s);
    assert TrimIndex(s) == 0;
    assert forall j :: 0 <= j <= m ==> r[j] == s[j];
    assert s[|id|] == '\n';
    assert r[..|id|] == id by {
      assert forall j :: 0 <= j < |id| ==> r[j] == s[j] == id[j];
    }
  }

  // ===========================================================================
  // Text detection
  // ===========================================================================

  /** An element of `responses`: its `fullTextAnnotation.text` as a string, if any. */
  datatype AnnotateImageResponse = AnnotateImageResponse(fullText: Option<string>)

  /** The full texts of the responses one after another; a response without one adds nothing. */
  function FullText(responses: seq<AnnotateImageResponse>): string {
    if responses == [] then ""
    else FullText(responses[..|responses| - 1]) + responses[|responses| - 1].fullText.GetOr("")
  }

  lemma {:induction false} FullTextAppend(a: seq<AnnotateImageResponse>, b: seq<AnnotateImageResponse>)
    ensures FullText(a + b) == FullText(a) + FullText(b)
  {
    if b == [] {
      assert a + b == a;
    } else {
      assert (a + b)[..|a + b| - 1] == a + b[..|b| - 1];
      FullTextAppend(a, b[..|b| - 1]);
    }
  }

  /** The detected text is empty exactly when no response carries a non-empty full text. */
  lemma {:induction false} FullTextEmpty(responses: seq<AnnotateImageResponse>)
    ensures FullText(responses) == "" <==>
      forall k :: 0 <= k < |responses| ==> responses[k].fullText.GetOr("") == ""
  {
    if responses != [] {
      var p := responses[..|responses| - 1];
      FullTextEmpty(p);
      assert forall k :: 0 <= k < |p| ==> p[k] == responses[k];
    }
  }

  /** The body of `make_ocr_request` after the HTTP call: the full texts pushed one by one. */
  method ExtractText(responses: Option<seq<AnnotateImageResponse>>) returns (extractedText: string)
    ensures extractedText == FullText(responses.GetOr([]))
  {
    extractedText := "";
    if responses.Some? {
      var rs := responses.value;
      var k := 0;
      while k < |rs|
        invariant 0 <= k <= |rs|
        invariant extractedText == FullText(rs[..k])
      {
        if rs[k].fullText.Some? {
          extractedText := extractedText + rs[k].fullText.value;
        }
        assert rs[..k + 1][..k] == rs[..k];
        k := k + 1;
      }
      assert rs[..k] == rs;
    }
  }

  // ===========================================================================
  // Translation
  // ===========================================================================

  /** An element of `data.translations`: its `translatedText` as a string, if any. */
  datatype GoogleTranslation = GoogleTranslation(translatedText: Option<string>)

  /** The translated texts that are present, in order. */
  function Present(ts: seq<GoogleTranslation>): (r: seq<string>)
    ensures |r| <= |ts|
  {
    if ts == [] then []
    else
      var p := Present(ts[..|ts| - 1]);
      match ts[|ts| - 1].translatedText
      case None => p
      case Some(t) => p + [t]
  }

  /** Each text followed by a line break. */
  function Terminated(lines: seq<string>): string {
    if lines == [] then "" else lines[0] + "\n" + Terminated(lines[1..])
  }

  lemma {:induction false} TerminatedAppend(lines: seq<string>, t: string)
    ensures Terminated(lines + [t]) == Terminated(lines) + t + "\n"
  {
    if lines != [] {
      assert (lines + [t])[1..] == lines[1..] + [t];
      TerminatedAppend(lines[1..], t);
    } else {
      assert [t][1..] == [];
    }
  }

  /** The English translation gathered from the answer: each present text and a line break, in order. */
  function CumTranslation(ts: seq<GoogleTranslation>): string {
    if ts == [] then ""
    else
      var c := CumTranslation(ts[..|ts| - 1]);
      match ts[|ts| - 1].translatedText
      case None => c
      case Some(t) => c + t + "\n"
  }

  lemma {:induction false} CumTranslationTerminated(ts: seq<GoogleTranslation>)
    ensures CumTranslation(ts) == Terminated(Present(ts))
  {
    if ts != [] {
      CumTranslationTerminated(ts[..|ts| - 1]);
      if ts[|ts| - 1].translatedText.Some? {
        TerminatedAppend(Present(ts[..|ts| - 1]), ts[|ts| - 1].translatedText.value);
      }
    }
  }

  lemma {:induction false} SplitTerminated(lines: seq<string>)
    requires forall i :: 0 <= i < |lines| ==> '\n' !in lines[i]
    ensures Split(Terminated(lines), '\n') == lines + [""]
  {
    if lines != [] {
      SplitTerminated(lines[1..]);
      SplitAtFirstSeparator(lines[0], Terminated(lines[1..]), '\n');
      assert lines == [lines[0]] + lines[1..];
    }
  }

  /**
   * Cutting the English translation at its line breaks gives back every present
   * text in order, then the empty piece after the last break, provided the texts
   * hold no line breaks of their own.
   */
  lemma TranslationLines(ts: seq<GoogleTranslation>)
    requires forall i :: 0 <= i < |Present(ts)| ==> '\n' !in Present(ts)[i]
    ensures Split(CumTranslation(ts), '\n') == Present(ts) + [""]
  {
    CumTranslationTerminated(ts);
    SplitTerminated(Present(ts));
  }

  /**
   * The body of `make_trans_request` after the HTTP call: the English translation
   * from the answer; Finnish and Swedish are always empty, and the requested
   * languages play no part.
   */
  method Translate(outputLanguages: seq<TextToSpeechLanguage>, translations: Option<seq<GoogleTranslation>>)
    returns (r: TranslationResponse)
    ensures r == TranslationResponse(CumTranslation(translations.GetOr([])), "", "")
  {
    var cumTranslation := "";
    if translations.Some? {
      var ts := translations.value;
      var k := 0;
      while k < |ts|
        invariant 0 <= k <= |ts|
        invariant cumTranslation == CumTranslation(ts[..k])
      {
        if ts[k].translatedText.Some? {
          cumTranslation := cumTranslation + ts[k].translatedText.value;
          cumTranslation := cumTranslation + "\n";
        }
        assert ts[..k + 1][..k] == ts[..k];
        k := k + 1;
      }
      assert ts[..k] == ts;
    }
    r := TranslationResponse(cumTranslation, "", "");
  }
}
