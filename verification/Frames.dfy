/** The text frames of the RPC layer: how they are printed and how the receiver's pattern splits them. */
module Frames {
  import opened Wrappers
  import opened Text

  /** An outgoing message; an absent error code means the message is not an error. */
  datatype Message = Message(messageType: string, id: string, action: string, payload: string,
                             errorCode: Option<string>, errorDescription: string)

  function Quoted(s: string, rest: string): string {
    "\"" + (s + ("\"" + rest))
  }

  /** The formatting in SendOcpp20Message. */
  function Print(m: Message): string {
    "[" + (m.messageType + ("," + Quoted(m.id,
      if m.errorCode.Some? && m.errorCode.value != "" then
        "," + Quoted(m.errorCode.value, "," + Quoted(m.errorDescription, "," + ("{}" + "]")))
      else if m.messageType == "2" then
        "," + Quoted(m.action, "," + (m.payload + "]"))
      else
        "," + (m.payload + "]"))))
  }

  /** The Unicode classes behind \d and \w. */
  datatype Classes = Classes(digit: char -> bool, word: char -> bool)

  ghost predicate Proper(k: Classes) {
    && (forall c :: k.digit(c) ==> c != ',' && !IsSpace(c))
    && (forall c :: k.word(c) ==> c != '"')
  }

  ghost predicate All(s: string, p: char -> bool) {
    forall i :: 0 <= i < |s| ==> p(s[i])
  }

  predicate NotQuote(c: char) {
    c != '"'
  }

  /** The four groups of the pattern. */
  datatype Fields = Fields(messageType: string, id: string, action: Option<string>, payload: string)

  /** The language of the last group: both of its alternatives together are any text from '{' to '}'. */
  predicate Braced(s: string) {
    |s| >= 2 && s[0] == '{' && s[|s| - 1] == '}'
  }

  ghost predicate ValidFields(k: Classes, f: Fields) {
    && f.messageType != "" && All(f.messageType, k.digit)
    && f.id != "" && All(f.id, NotQuote)
    && (f.action.Some? ==> f.action.value != "" && All(f.action.value, k.word))
    && Braced(f.payload)
  }

  /** The white space that the pattern lets stand between the groups. */
  datatype Gaps = Gaps(g0: string, g1: string, g2: string, g3: string, g4: string, g5: string, g6: string, g7: string)

  ghost predicate ValidGaps(g: Gaps) {
    && AllSpace(g.g0) && AllSpace(g.g1) && AllSpace(g.g2) && AllSpace(g.g3)
    && AllSpace(g.g4) && AllSpace(g.g5) && AllSpace(g.g6) && AllSpace(g.g7)
  }

  /** The text from the payload on; `feed` is the line feed that '$' lets stand at the end, or nothing. */
  function End(f: Fields, g: Gaps, feed: string): string {
    f.payload + (g.g7 + ("]" + feed))
  }

  function Argument(f: Fields, g: Gaps, feed: string): string {
    if f.action.Some? then Quoted(f.action.value, g.g5 + ("," + (g.g6 + End(f, g, feed))))
    else g.g6 + End(f, g, feed)
  }

  function AfterId(f: Fields, g: Gaps, feed: string): string {
    g.g3 + ("," + (g.g4 + Argument(f, g, feed)))
  }

  function AfterType(f: Fields, g: Gaps, feed: string): string {
    g.g1 + ("," + (g.g2 + Quoted(f.id, AfterId(f, g, feed))))
  }

  function Layout(f: Fields, g: Gaps, feed: string): string {
    "[" + (g.g0 + (f.messageType + AfterType(f, g, feed)))
  }

  /** The pattern matches the text with these groups. */
  ghost predicate Splits(k: Classes, text: string, f: Fields) {
    exists g, feed :: SplitsWith(k, text, f, g, feed)
  }

  ghost predicate SplitsWith(k: Classes, text: string, f: Fields, g: Gaps, feed: string) {
    && ValidFields(k, f) && ValidGaps(g) && (feed == "" || feed == "\n")
    && text == Layout(f, g, feed)
  }

  // ----- a span of one class is determined by what follows it -----

  lemma SpanUnique(p: char -> bool, a: string, x: string, b: string, y: string)
    requires All(a, p) && All(b, p) && a + x == b + y
    requires x != "" && y != "" && !p(x[0]) && !p(y[0])
    ensures a == b && x == y
  {
    var t := a + x;
    assert t[|a|] == x[0] && t[|b|] == y[0];
    assert forall i :: 0 <= i < |a| ==> t[i] == a[i];
    assert forall i :: 0 <= i < |b| ==> t[i] == b[i];
    assert a == t[..|a|] && b == t[..|b|];
    assert x == t[|a|..] && y == t[|b|..];
  }

  lemma StepOver(c: string, x: string, y: string)
    requires c + x == c + y
    ensures x == y
  {
    assert x == (c + x)[|c|..] && y == (c + y)[|c|..];
  }

  /** The end of the frame determines the payload, whatever braces and brackets the payload holds. */
  lemma EndUnique(p: string, g: string, feed: string, p': string, g': string, feed': string)
    requires Braced(p) && Braced(p') && AllSpace(g) && AllSpace(g')
    requires feed == "" || feed == "\n"
    requires feed' == "" || feed' == "\n"
    requires p + (g + ("]" + feed)) == p' + (g' + ("]" + feed'))
    ensures p == p'
  {
    var t := p + (g + ("]" + feed));
    assert feed == feed' by {
      assert t[|t| - 1] == ("]" + feed)[|feed|];
      assert t[|t| - 1] == ("]" + feed')[|feed'|];
    }
    var n := |t| - 1 - |feed|;
    assert t[..n] == p + g;
    assert t[..n] == p' + g';
    assert t[|p| - 1] == '}' && t[|p'| - 1] == '}';
    assert forall i :: |p| <= i < n ==> IsSpace((p + g)[i]);
    assert forall i :: |p'| <= i < n ==> IsSpace((p' + g')[i]);
    assert p == t[..|p|] && p' == t[..|p'|];
  }

  lemma ArgumentUnique(k: Classes, f: Fields, g: Gaps, feed: string, f': Fields, g': Gaps, feed': string)
    requires Proper(k) && ValidFields(k, f) && ValidGaps(g) && (feed == "" || feed == "\n")
    requires ValidFields(k, f') && ValidGaps(g') && (feed' == "" || feed' == "\n")
    requires g.g4 + Argument(f, g, feed) == g'.g4 + Argument(f', g', feed')
    ensures f.action == f'.action && f.payload == f'.payload
  {
    var e, e' := End(f, g, feed), End(f', g', feed');
    FirstVisible(f, g, feed);
    FirstVisible(f', g', feed');
    SpanUnique(IsSpace, Blank(f, g), Visible(f, g, feed), Blank(f', g'), Visible(f', g', feed'));
    if f.action.Some? {
      var x, x' := g.g5 + ("," + (g.g6 + e)), g'.g5 + ("," + (g'.g6 + e'));
      StepOver("\"", f.action.value + ("\"" + x), f'.action.value + ("\"" + x'));
      SpanUnique(k.word, f.action.value, "\"" + x, f'.action.value, "\"" + x');
      StepOver("\"", x, x');
      SpanUnique(IsSpace, g.g5, "," + (g.g6 + e), g'.g5, "," + (g'.g6 + e'));
      StepOver(",", g.g6 + e, g'.g6 + e');
      SpanUnique(IsSpace, g.g6, e, g'.g6, e');
    }
    EndUnique(f.payload, g.g7, feed, f'.payload, g'.g7, feed');
  }

  /** The white space before the action or, without an action, before the payload. */
  function Blank(f: Fields, g: Gaps): string {
    if f.action.Some? then g.g4 else g.g4 + g.g6
  }

  function Visible(f: Fields, g: Gaps, feed: string): string {
    if f.action.Some? then Argument(f, g, feed) else End(f, g, feed)
  }

  lemma FirstVisible(f: Fields, g: Gaps, feed: string)
    requires Braced(f.payload) && ValidGaps(g)
    ensures g.g4 + Argument(f, g, feed) == Blank(f, g) + Visible(f, g, feed)
    ensures AllSpace(Blank(f, g)) && Visible(f, g, feed) != ""
    ensures Visible(f, g, feed)[0] == if f.action.Some? then '"' else '{'
  {
  }

  /** The pattern is unambiguous: no text has two different field splits. */
  lemma SplitIsUnique(k: Classes, text: string, f: Fields, f': Fields)
    requires Proper(k) && Splits(k, text, f) && Splits(k, text, f')
    ensures f == f'
  {
    var g, feed :| SplitsWith(k, text, f, g, feed);
    var g', feed' :| SplitsWith(k, text, f', g', feed');
    var x, x' := AfterType(f, g, feed), AfterType(f', g', feed');
    StepOver("[", g.g0 + (f.messageType + x), g'.g0 + (f'.messageType + x'));
    SpanUnique(IsSpace, g.g0, f.messageType + x, g'.g0, f'.messageType + x');
    SpanUnique(k.digit, f.messageType, x, f'.messageType, x');
    AfterTypeUnique(k, f, g, feed, f', g', feed');
  }

  lemma AfterTypeUnique(k: Classes, f: Fields, g: Gaps, feed: string, f': Fields, g': Gaps, feed': string)
    requires Proper(k) && ValidFields(k, f) && ValidGaps(g) && (feed == "" || feed == "\n")
    requires ValidFields(k, f') && ValidGaps(g') && (feed' == "" || feed' == "\n")
    requires AfterType(f, g, feed) == AfterType(f', g', feed')
    ensures f.id == f'.id && f.action == f'.action && f.payload == f'.payload
  {
    var a, a' := AfterId(f, g, feed), AfterId(f', g', feed');
    var q, q' := Quoted(f.id, a), Quoted(f'.id, a');
    SpanUnique(IsSpace, g.g1, "," + (g.g2 + q), g'.g1, "," + (g'.g2 + q'));
    StepOver(",", g.g2 + q, g'.g2 + q');
    SpanUnique(IsSpace, g.g2, q, g'.g2, q');
    StepOver("\"", f.id + ("\"" + a), f'.id + ("\"" + a'));
    SpanUnique(NotQuote, f.id, "\"" + a, f'.id, "\"" + a');
    StepOver("\"", a, a');
    var r, r' := g.g4 + Argument(f, g, feed), g'.g4 + Argument(f', g', feed');
    SpanUnique(IsSpace, g.g3, "," + r, g'.g3, "," + r');
    StepOver(",", r, r');
    ArgumentUnique(k, f, g, feed, f', g', feed');
  }

  // ----- round trip -----

  const NO_GAPS := Gaps("", "", "", "", "", "", "", "")

  /** The fields that a request or a response carries on the wire: a response has no action. */
  function FieldsOf(m: Message): Fields {
    Fields(m.messageType, m.id, if m.messageType == "2" then Some(m.action) else None, m.payload)
  }

  lemma PrintIsLayout(m: Message)
    requires m.errorCode.None? || m.errorCode.value == ""
    ensures Print(m) == Layout(FieldsOf(m), NO_GAPS, "")
  {
    var f := FieldsOf(m);
    assert End(f, NO_GAPS, "") == m.payload + "]";
    assert "" + (m.payload + "]") == m.payload + "]";
    assert "" + ("," + (m.payload + "]")) == "," + (m.payload + "]");
    assert "" + Argument(f, NO_GAPS, "") == Argument(f, NO_GAPS, "");
    var a := "," + Argument(f, NO_GAPS, "");
    assert AfterId(f, NO_GAPS, "") == a;
    assert "" + Quoted(m.id, a) == Quoted(m.id, a);
    assert AfterType(f, NO_GAPS, "") == "," + Quoted(m.id, a);
    assert "" + (m.messageType + AfterType(f, NO_GAPS, "")) == m.messageType + AfterType(f, NO_GAPS, "");
  }

  /** A printed request or response is split into exactly the fields it was printed from. */
  lemma RoundTrip(k: Classes, m: Message, f: Fields)
    requires Proper(k) && ValidFields(k, FieldsOf(m))
    requires m.errorCode.None? || m.errorCode.value == ""
    ensures Splits(k, Print(m), f) <==> f == FieldsOf(m)
  {
    PrintIsLayout(m);
    assert SplitsWith(k, Print(m), FieldsOf(m), NO_GAPS, "");
    if Splits(k, Print(m), f) {
      SplitIsUnique(k, Print(m), f, FieldsOf(m));
    }
  }

  // ----- the five-field error form -----

  lemma RestAfterId(k: Classes, messageType: string, id: string, rest: string, f: Fields, g: Gaps, feed: string)
    requires Proper(k) && messageType != "" && All(messageType, k.digit) && All(id, NotQuote)
    requires SplitsWith(k, "[" + (messageType + ("," + Quoted(id, rest))), f, g, feed)
    ensures AfterId(f, g, feed) == rest
  {
    var x, a := AfterType(f, g, feed), AfterId(f, g, feed);
    var y := "," + Quoted(id, rest);
    StepOver("[", g.g0 + (f.messageType + x), messageType + y);
    assert "" + (messageType + y) == messageType + y && "" + y == y && "" + Quoted(id, rest) == Quoted(id, rest);
    SpanUnique(IsSpace, g.g0, f.messageType + x, "", messageType + y);
    SpanUnique(k.digit, f.messageType, x, messageType, y);
    SpanUnique(IsSpace, g.g1, "," + (g.g2 + Quoted(f.id, a)), "", y);
    StepOver(",", g.g2 + Quoted(f.id, a), Quoted(id, rest));
    SpanUnique(IsSpace, g.g2, Quoted(f.id, a), "", Quoted(id, rest));
    StepOver("\"", f.id + ("\"" + a), id + ("\"" + rest));
    SpanUnique(NotQuote, f.id, "\"" + a, id, "\"" + rest);
    StepOver("\"", a, rest);
  }

  lemma SkipComma(gap: string, x: string, y: string)
    requires AllSpace(gap) && gap + ("," + x) == "," + y
    ensures x == y
  {
    assert "" + ("," + y) == "," + y;
    SpanUnique(IsSpace, gap, "," + x, "", "," + y);
    StepOver(",", x, y);
  }

  lemma BraceIsNotQuote(gap: string, x: string, y: string)
    requires AllSpace(gap) && x != "" && x[0] == '{'
    ensures gap + x != "\"" + y
  {
    assert (gap + x)[|gap|] == x[0];
    assert gap != "" ==> (gap + x)[0] == gap[0];
    assert ("\"" + y)[0] == '"';
  }

  /** A quoted string followed by another quoted string cannot be the action and the payload. */
  lemma NotActionAndPayload(k: Classes, code: string, rest: string, f: Fields, g: Gaps, feed: string)
    requires Proper(k) && All(code, NotQuote) && ValidFields(k, f) && ValidGaps(g) && f.action.Some?
    ensures Argument(f, g, feed) != Quoted(code, "," + ("\"" + rest))
  {
    var x := g.g5 + ("," + (g.g6 + End(f, g, feed)));
    var y := "," + ("\"" + rest);
    BraceIsNotQuote(g.g6, End(f, g, feed), rest);
    if Quoted(f.action.value, x) == Quoted(code, y) {
      StepOver("\"", f.action.value + ("\"" + x), code + ("\"" + y));
      SpanUnique(NotQuote, f.action.value, "\"" + x, code, "\"" + y);
      StepOver("\"", x, y);
      SkipComma(g.g5, g.g6 + End(f, g, feed), "\"" + rest);
    }
  }

  lemma NoPayloadAfterTwoStrings(k: Classes, code: string, rest: string, f: Fields, g: Gaps, feed: string)
    requires Proper(k) && All(code, NotQuote) && ValidFields(k, f) && ValidGaps(g)
    ensures AfterId(f, g, feed) != "," + Quoted(code, "," + ("\"" + rest))
  {
    var r := Quoted(code, "," + ("\"" + rest));
    if AfterId(f, g, feed) == "," + r {
      SkipComma(g.g3, g.g4 + Argument(f, g, feed), r);
      FirstVisible(f, g, feed);
      assert "" + r == r;
      SpanUnique(IsSpace, Blank(f, g), Visible(f, g, feed), "", r);
      NotActionAndPayload(k, code, rest, f, g, feed);
    }
  }

  /** The pattern rejects every printed error frame, so an error answer never reaches a pending request. */
  lemma ErrorFrameIsRejected(k: Classes, m: Message, f: Fields)
    requires Proper(k) && m.messageType != "" && All(m.messageType, k.digit) && All(m.id, NotQuote)
    requires m.errorCode.Some? && m.errorCode.value != "" && All(m.errorCode.value, NotQuote)
    ensures !Splits(k, Print(m), f)
  {
    var rest := m.errorDescription + ("\"" + ("," + ("{}" + "]")));
    forall g, feed
      ensures !SplitsWith(k, Print(m), f, g, feed)
    {
      if SplitsWith(k, Print(m), f, g, feed) {
        RestAfterId(k, m.messageType, m.id, "," + Quoted(m.errorCode.value, "," + ("\"" + rest)), f, g, feed);
        NoPayloadAfterTwoStrings(k, m.errorCode.value, rest, f, g, feed);
      }
    }
  }

  // ----- the texts on the wire -----

  /** A request is printed with its action, a response without. */
  lemma PrintedText(m: Message)
    requires m.errorCode.None? || m.errorCode.value == ""
    ensures m.messageType == "2" ==> Print(m) == "[2,\"" + m.id + "\",\"" + m.action + "\"," + m.payload + "]"
    ensures m.messageType != "2" ==> Print(m) == "[" + m.messageType + ",\"" + m.id + "\"," + m.payload + "]"
  {
  }

  /** An error is printed with its code, its description and empty details. */
  lemma PrintedError(m: Message)
    requires m.errorCode.Some? && m.errorCode.value != ""
    ensures Print(m) == "[" + m.messageType + ",\"" + m.id + "\",\"" + m.errorCode.value + "\",\""
                        + m.errorDescription + "\",{}]"
  {
  }
}
