/**
 * `transliterate_and_translate` in its three forms: the unguided Google
 * translator call, the Google call with an explicit Hindi/Telugu source,
 * and the RapidAPI request with its status and missing-field handling.
 * The services themselves are parameters: a Google translator that either
 * returns a text or raises (`None`), and an HTTP endpoint whose reply is
 * given as a `Response`.
 */
module Translation {
  import opened Options
  import opened Text

  /** The language codes the scripts pass to the services. */
  datatype Lang = Auto | Hindi | Telugu | English

  /** The code sent on the wire for each language. */
  function Code(l: Lang): (c: string)
    ensures |c| == 2 || c == "auto"
  {
    match l
    case Auto => "auto"
    case Hindi => "hi"
    case Telugu => "te"
    case English => "en"
  }

  /** Different languages have different codes. */
  lemma CodeInjective(a: Lang, b: Lang)
    ensures Code(a) == Code(b) <==> a == b
  {
  }

  /** One call to a translation service: the text, its source and its target. */
  datatype Request = Request(text: string, src: Lang, dest: Lang)

  /**
   * What one translation attempt did: whether it called the translator's
   * language detection, the translation request it sent, if any, and the
   * translation it returned (`None` where the script returns `None`).
   */
  datatype Attempt = Attempt(detected: bool, sent: Option<Request>, result: Option<string>)

  /**
   * `transliterate_and_translate` with googletrans and the translator's
   * own source detection: nothing is sent for blank text; otherwise the
   * text goes out with source `auto` and target `en`, and a raised
   * exception gives `None`.
   */
  function GoogleTranslate(google: Request -> Option<string>, text: string): (a: Attempt)
    ensures !a.detected
    ensures a.sent.None? <==> Blank(text)
    ensures a.sent.None? ==> a.result.None?
    ensures a.sent.Some? ==> a.sent.value == Request(text, Auto, English) && a.result == google(a.sent.value)
  {
    if Blank(text) then Attempt(false, None, None)
    else
      var req := Request(text, Auto, English);
      Attempt(false, Some(req), google(req))
  }

  /** `re.match(r'^[lo-hi\s]+$', text)`: non-empty, and every character is whitespace or in the block. */
  predicate PureScript(text: string, lo: int, hi: int) {
    text != [] && forall i :: 0 <= i < |text| ==> IsSpace(text[i]) || lo <= text[i] as int <= hi
  }

  /** Text made of Devanagari (U+0900 to U+097F) and whitespace. */
  predicate PureHindi(text: string) {
    PureScript(text, 0x0900, 0x097F)
  }

  /** Text made of Telugu (U+0C00 to U+0C7F) and whitespace. */
  predicate PureTelugu(text: string) {
    PureScript(text, 0x0C00, 0x0C7F)
  }

  /**
   * The source language chosen before translating: Hindi for pure
   * Devanagari text, else Telugu for pure Telugu text, else `auto`.
   */
  function SourceLanguage(text: string): (l: Lang)
    ensures l == Hindi <==> PureHindi(text)
    ensures l == Telugu <==> !PureHindi(text) && PureTelugu(text)
    ensures l == Auto <==> !PureHindi(text) && !PureTelugu(text)
  {
    if PureHindi(text) then Hindi
    else if PureTelugu(text) then Telugu
    else Auto
  }

  /** A non-blank text cannot be both pure Hindi and pure Telugu, so pure Telugu text always gets `te`. */
  lemma PureTeluguChoosesTelugu(text: string)
    requires PureTelugu(text) && !Blank(text)
    ensures SourceLanguage(text) == Telugu
  {
    var i :| 0 <= i < |text| && !IsSpace(text[i]);
    assert 0x0C00 <= text[i] as int;
  }

  /** The source code put on the wire: `hi`, `te` or `auto`, each exactly in its own case. */
  lemma SourceCodes(text: string)
    ensures Code(SourceLanguage(text)) == "hi" <==> PureHindi(text)
    ensures Code(SourceLanguage(text)) == "te" <==> !PureHindi(text) && PureTelugu(text)
    ensures Code(SourceLanguage(text)) == "auto" <==> !PureHindi(text) && !PureTelugu(text)
  {
    CodeInjective(SourceLanguage(text), Hindi);
    CodeInjective(SourceLanguage(text), Telugu);
    CodeInjective(SourceLanguage(text), Auto);
  }

  /** Mixed text, such as Latin letters among Devanagari, goes to auto-detection. */
  lemma LatinLetterChoosesAuto(text: string, i: nat)
    requires i < |text| && 'a' <= text[i] <= 'z'
    ensures SourceLanguage(text) == Auto
  {
    assert !IsSpace(text[i]);
  }

  /**
   * `transliterate_and_translate` with an explicit source: for blank text
   * neither detection nor translation is called; otherwise the translator's language detection runs
   * first, and when it raises the result is `None` and no translation is
   * requested; when it returns, its answer is unused and the text goes out
   * with the chosen source and target `en`, a raised exception again
   * giving `None`.
   */
  function GoogleTranslateWithSource(detects: string -> bool, google: Request -> Option<string>, text: string): (a: Attempt)
    ensures a.detected <==> !Blank(text)
    ensures a.sent.None? <==> Blank(text) || !detects(text)
    ensures a.sent.None? ==> a.result.None?
    ensures a.sent.Some? ==> a.sent.value == Request(text, SourceLanguage(text), English) && a.result == google(a.sent.value)
  {
    if Blank(text) then Attempt(false, None, None)
    else if !detects(text) then Attempt(true, None, None)
    else
      var req := Request(text, SourceLanguage(text), English);
      Attempt(true, Some(req), google(req))
  }

  /** The `translation` member of the JSON reply: absent, `null`, or a string. */
  datatype Field = Missing | Null | Text(value: string)

  /** The body of an HTTP reply: not a JSON object, or an object with its `translation` member. */
  datatype Body = Malformed | Json(translation: Field)

  /** What the HTTP call gives back: an exception, or a status code and a body. */
  datatype Response = Raised | Reply(status: int, body: Body)

  /** The default of `translation.get('translation', ...)`. */
  const NoTranslation: string := "No translation found"

  /**
   * `transliterate_and_translate` over RapidAPI: nothing is sent for blank
   * text; a 200 reply yields its `translation` member, or the literal
   * `No translation found` when the member is absent; every other status,
   * an unreadable body and an exception yield `None`.
   */
  function RapidApiTranslate(rapid: Request -> Response, text: string): (a: Attempt)
    ensures !a.detected
    ensures a.sent.None? <==> Blank(text)
    ensures a.sent.Some? ==> a.sent.value == Request(text, Auto, English)
    ensures a.result.Some? <==>
      a.sent.Some? && rapid(a.sent.value).Reply? && rapid(a.sent.value).status == 200
      && rapid(a.sent.value).body.Json? && !rapid(a.sent.value).body.translation.Null?
    ensures a.result.Some? ==>
      var f := rapid(a.sent.value).body.translation;
      a.result.value == if f.Missing? then NoTranslation else f.value
  {
    if Blank(text) then Attempt(false, None, None)
    else
      var req := Request(text, Auto, English);
      var reply := rapid(req);
      var result :=
        if reply.Reply? && reply.status == 200 then
          match reply.body
          case Malformed => None
          case Json(Missing) => Some(NoTranslation)
          case Json(Null) => None
          case Json(Text(t)) => Some(t)
        else None;
      Attempt(false, Some(req), result)
  }

  /** A 200 reply without the member yields the non-empty placeholder, which later counts as a translation. */
  lemma MissingFieldYieldsPlaceholder(rapid: Request -> Response, text: string)
    requires !Blank(text) && rapid(Request(text, Auto, English)) == Reply(200, Json(Missing))
    ensures RapidApiTranslate(rapid, text).result == Some(NoTranslation)
    ensures NoTranslation != ""
  {
  }

  /** Any status other than 200 yields `None`, whatever the body says. */
  lemma OtherStatusYieldsNone(rapid: Request -> Response, text: string)
    requires !Blank(text) && rapid(Request(text, Auto, English)).Reply?
    requires rapid(Request(text, Auto, English)).status != 200
    ensures RapidApiTranslate(rapid, text).result.None?
  {
  }
}
