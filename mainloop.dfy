/**
 * The program's driver: the interactive loop that toggles the usage options
 * from the letters of each input line and runs one capture per line until a
 * line asks to quit, and `capture_process_playback`, which picks the
 * translation languages and decides what is printed and what is spoken.
 */
module MainLoop {
  import opened Wrappers
  import opened Utils
  import GoogleClient

  // ===========================================================================
  // Usage options and their toggles
  // ===========================================================================

  /** The options the program starts with: translation on, everything else off. */
  const InitialOptions: UsageOptions := UsageOptions(
    playbackEn := false,
    playbackFi := false,
    useTranslation := true,
    halfScreen := false,
    debugPrinting := false,
    colorCorrection := false)

  /** The letters that toggle an option, one per option. */
  predicate IsToggleLetter(c: char) {
    c == 'f' || c == 'e' || c == 't' || c == 'h' || c == 'd' || c == 'c'
  }

  /** The option a toggle letter flips. */
  function Flag(o: UsageOptions, c: char): bool
    requires IsToggleLetter(c)
  {
    match c
    case 'f' => o.playbackFi
    case 'e' => o.playbackEn
    case 't' => o.useTranslation
    case 'h' => o.halfScreen
    case 'd' => o.debugPrinting
    case 'c' => o.colorCorrection
  }

  /** Only translation is on at the start. */
  lemma InitialOptionsOnlyTranslation(c: char)
    requires IsToggleLetter(c)
    ensures Flag(InitialOptions, c) <==> c == 't'
  {
  }

  /** The options after a line. */
  function Toggled(o: UsageOptions, line: string): UsageOptions {
    UsageOptions(
      playbackEn := o.playbackEn != ('e' in line),
      playbackFi := o.playbackFi != ('f' in line),
      useTranslation := o.useTranslation != ('t' in line),
      halfScreen := o.halfScreen != ('h' in line),
      debugPrinting := o.debugPrinting != ('d' in line),
      colorCorrection := o.colorCorrection != ('c' in line))
  }

  /** Each option whose letter occurs in the line is flipped, and every other option is kept. */
  lemma ToggledFlips(o: UsageOptions, line: string, c: char)
    requires IsToggleLetter(c)
    ensures Flag(Toggled(o, line), c) == (Flag(o, c) != (c in line))
  {
  }

  /** A line toggles nothing twice: entering the same line again restores the options. */
  lemma ToggledTwice(o: UsageOptions, line: string)
    ensures Toggled(Toggled(o, line), line) == o
  {
  }

  /** The order of two lines does not matter. */
  lemma ToggledCommutes(o: UsageOptions, a: string, b: string)
    ensures Toggled(Toggled(o, a), b) == Toggled(Toggled(o, b), a)
  {
  }

  /** A line without toggle letters, such as the empty line that just captures, changes nothing. */
  lemma ToggledNoLetters(o: UsageOptions, line: string)
    requires forall i :: 0 <= i < |line| ==> !IsToggleLetter(line[i])
    ensures Toggled(o, line) == o
  {
    assert 'f' !in line && 'e' !in line && 't' !in line;
    assert 'h' !in line && 'd' !in line && 'c' !in line;
  }

  /** The options after the given lines, starting from the initial ones. */
  function OptionsAfter(lines: seq<string>): UsageOptions {
    if lines == [] then InitialOptions
    else Toggled(OptionsAfter(lines[..|lines| - 1]), lines[|lines| - 1])
  }

  /** How many of the lines contain `c`. */
  function LinesWith(lines: seq<string>, c: char): nat {
    if lines == [] then 0
    else LinesWith(lines[..|lines| - 1], c) + (if c in lines[|lines| - 1] then 1 else 0)
  }

  /**
   * An option is on after some lines exactly when its initial value differs from
   * whether an odd number of those lines contained its letter.
   */
  lemma {:induction false} OptionsAfterParity(lines: seq<string>, c: char)
    requires IsToggleLetter(c)
    ensures Flag(OptionsAfter(lines), c) == (Flag(InitialOptions, c) != (LinesWith(lines, c) % 2 == 1))
  {
    if lines != [] {
      OptionsAfterParity(lines[..|lines| - 1], c);
      ToggledFlips(OptionsAfter(lines[..|lines| - 1]), lines[|lines| - 1], c);
    }
  }

  // ===========================================================================
  // The session
  // ===========================================================================

  /** The index of the first line that contains `q`, or the number of lines when none does. */
  function QuitIndex(input: seq<string>): (q: nat)
    ensures q <= |input|
    ensures forall k :: 0 <= k < q ==> 'q' !in input[k]
    ensures q < |input| ==> 'q' in input[q]
  {
    if input == [] then 0
    else if 'q' in input[0] then 0
    else 1 + QuitIndex(input[1..])
  }

  /** One of the six toggles: the option is flipped when the line contains its letter. */
  method Toggle(option: bool, letter: char, line: string) returns (r: bool)
    ensures r <==> (option != (letter in line))
  {
    r := option;
    if letter in line {
      r := !r;
    }
  }

  /** The body of the `while` loop of `main` before the capture: the six toggles. */
  method ToggleOptions(usageOptions: UsageOptions, line: string) returns (r: UsageOptions)
    ensures r == Toggled(usageOptions, line)
  {
    r := usageOptions;
    var playbackFi := Toggle(r.playbackFi, 'f', line);
    r := r.(playbackFi := playbackFi);
    var playbackEn := Toggle(r.playbackEn, 'e', line);
    r := r.(playbackEn := playbackEn);
    var useTranslation := Toggle(r.useTranslation, 't', line);
    r := r.(useTranslation := useTranslation);
    var halfScreen := Toggle(r.halfScreen, 'h', line);
    r := r.(halfScreen := halfScreen);
    var debugPrinting := Toggle(r.debugPrinting, 'd', line);
    r := r.(debugPrinting := debugPrinting);
    var colorCorrection := Toggle(r.colorCorrection, 'c', line);
    r := r.(colorCorrection := colorCorrection);
  }

  /**
   * The `while` loop of `main`. The lines entered are `input`; each line before
   * the first one containing `q` toggles the options and then triggers one
   * capture with them. The result lists the options of each capture, in order.
   */
  method RunSession(input: seq<string>) returns (captures: seq<UsageOptions>)
    ensures |captures| == QuitIndex(input)
    ensures forall k :: 0 <= k < |captures| ==> captures[k] == OptionsAfter(input[..k + 1])
  {
    var usageOptions := InitialOptions;
    captures := [];
    var k := 0;
    while k < |input| && 'q' !in input[k]
      invariant 0 <= k <= QuitIndex(input)
      invariant usageOptions == OptionsAfter(input[..k])
      invariant |captures| == k
      invariant forall m :: 0 <= m < k ==> captures[m] == OptionsAfter(input[..m + 1])
    {
      usageOptions := ToggleOptions(usageOptions, input[k]);
      assert input[..k + 1][..k] == input[..k];
      captures := captures + [usageOptions];
      k := k + 1;
    }
  }

  // ===========================================================================
  // One capture
  // ===========================================================================

  /**
   * The languages asked of the translator: English, Finnish and Swedish when
   * translation is on, none otherwise.
   */
  method SelectLanguages(usageOptions: UsageOptions) returns (languages: seq<TextToSpeechLanguage>)
    ensures usageOptions.useTranslation ==> languages == [English, Finnish, Swedish]
    ensures !usageOptions.useTranslation ==> languages == []
  {
    languages := [];
    if !usageOptions.useTranslation {
      languages := [];
    }
    if usageOptions.useTranslation {
      languages := languages + [English];
      languages := languages + [Finnish];
      languages := languages + [Swedish];
    }
  }

  /** What a capture does that can be seen or heard: a text printed, or a text spoken in a language. */
  datatype Action = Show(text: string) | Speak(lang: TextToSpeechLanguage, text: string)

  /**
   * The output of a capture: the extracted text is printed and spoken in
   * Japanese; then each non-empty translation is printed, and the English and
   * Finnish ones are spoken when their playback option is on.
   */
  function PlaybackPlan(extractedText: string, translated: TranslationResponse, usageOptions: UsageOptions): seq<Action> {
    [Show(extractedText), Speak(Japanese, extractedText)]
    + (if translated.enTranslation != "" then [Show(translated.enTranslation)] else [])
    + (if translated.enTranslation != "" && usageOptions.playbackEn then [Speak(English, translated.enTranslation)] else [])
    + (if translated.fiTranslation != "" then [Show(translated.fiTranslation)] else [])
    + (if translated.fiTranslation != "" && usageOptions.playbackFi then [Speak(Finnish, translated.fiTranslation)] else [])
    + (if translated.svTranslation != "" then [Show(translated.svTranslation)] else [])
  }

  /** The extracted text is always printed first and then spoken in Japanese, whatever the options. */
  lemma PlaybackStartsWithJapanese(extractedText: string, translated: TranslationResponse, usageOptions: UsageOptions)
    ensures var plan := PlaybackPlan(extractedText, translated, usageOptions);
      |plan| >= 2 && plan[0] == Show(extractedText) && plan[1] == Speak(Japanese, extractedText)
  {
  }

  /** A language other than Japanese is spoken exactly when its translation is non-empty and its playback is on. */
  lemma PlaybackSpeaks(extractedText: string, translated: TranslationResponse, usageOptions: UsageOptions,
                       lang: TextToSpeechLanguage, text: string)
    requires lang != Japanese
    ensures Speak(lang, text) in PlaybackPlan(extractedText, translated, usageOptions) <==>
      && text == Field(translated, lang) && text != ""
      && ((lang == English && usageOptions.playbackEn) || (lang == Finnish && usageOptions.playbackFi))
  {
    var plan := PlaybackPlan(extractedText, translated, usageOptions);
    if Speak(lang, text) in plan {
      var i :| 0 <= i < |plan| && plan[i] == Speak(lang, text);
    }
  }

  /** Every non-empty translation is printed, and nothing else is printed besides the extracted text. */
  lemma PlaybackShows(extractedText: string, translated: TranslationResponse, usageOptions: UsageOptions, text: string)
    ensures Show(text) in PlaybackPlan(extractedText, translated, usageOptions) <==>
      || text == extractedText
      || (text != "" && (text == translated.enTranslation || text == translated.fiTranslation || text == translated.svTranslation))
  {
    var plan := PlaybackPlan(extractedText, translated, usageOptions);
    if Show(text) in plan {
      var i :| 0 <= i < |plan| && plan[i] == Show(text);
    }
  }

  /**
   * `capture_process_playback` once the image is taken: the detected text of the
   * image-annotation answer, the languages, the translation answer, and then
   * the output. The two answers stand for what the services return.
   */
  method CaptureProcessPlayback(
    usageOptions: UsageOptions,
    ocrResponses: Option<seq<GoogleClient.AnnotateImageResponse>>,
    translations: Option<seq<GoogleClient.GoogleTranslation>>)
    returns (actions: seq<Action>)
    ensures actions == PlaybackPlan(
      GoogleClient.FullText(ocrResponses.GetOr([])),
      TranslationResponse(GoogleClient.CumTranslation(translations.GetOr([])), "", ""),
      usageOptions)
  {
    var extractedText := GoogleClient.ExtractText(ocrResponses);
    actions := [Show(extractedText)];
    var languages := SelectLanguages(usageOptions);
    var translatedText := GoogleClient.Translate(languages, translations);
    actions := actions + [Speak(Japanese, extractedText)];
    if translatedText.enTranslation != "" {
      actions := actions + [Show(translatedText.enTranslation)];
    }
    if translatedText.enTranslation != "" && usageOptions.playbackEn {
      actions := actions + [Speak(English, translatedText.enTranslation)];
    }
    if translatedText.fiTranslation != "" {
      actions := actions + [Show(translatedText.fiTranslation)];
    }
    if translatedText.fiTranslation != "" && usageOptions.playbackFi {
      actions := actions + [Speak(Finnish, translatedText.fiTranslation)];
    }
    if translatedText.svTranslation != "" {
      actions := actions + [Show(translatedText.svTranslation)];
    }
  }

  /**
   * With the translator the program uses, Finnish and Swedish are never spoken,
   * nothing but the detected text and the English translation is printed, and
   * the translation options other than English playback make no difference:
   * the same output whatever `useTranslation` and `playbackFi` are.
   */
  lemma OnlyEnglishTranslated(
    usageOptions: UsageOptions,
    ocrResponses: Option<seq<GoogleClient.AnnotateImageResponse>>,
    translations: Option<seq<GoogleClient.GoogleTranslation>>,
    text: string)
    ensures var plan := PlaybackPlan(
      GoogleClient.FullText(ocrResponses.GetOr([])),
      TranslationResponse(GoogleClient.CumTranslation(translations.GetOr([])), "", ""),
      usageOptions);
      && Speak(Finnish, text) !in plan && Speak(Swedish, text) !in plan
      && (Show(text) in plan ==>
            text == GoogleClient.FullText(ocrResponses.GetOr([]))
            || text == GoogleClient.CumTranslation(translations.GetOr([])))
      && plan == PlaybackPlan(
        GoogleClient.FullText(ocrResponses.GetOr([])),
        TranslationResponse(GoogleClient.CumTranslation(translations.GetOr([])), "", ""),
        usageOptions.(useTranslation := !usageOptions.useTranslation, playbackFi := !usageOptions.playbackFi))
  {
    var translated := TranslationResponse(GoogleClient.CumTranslation(translations.GetOr([])), "", "");
    PlaybackSpeaks(GoogleClient.FullText(ocrResponses.GetOr([])), translated, usageOptions, Finnish, text);
    PlaybackSpeaks(GoogleClient.FullText(ocrResponses.GetOr([])), translated, usageOptions, Swedish, text);
    PlaybackShows(GoogleClient.FullText(ocrResponses.GetOr([])), translated, usageOptions, text);
  }
}
