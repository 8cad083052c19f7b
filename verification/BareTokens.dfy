/** Tokens without quotes, and what stands around them: characters undone by a backslash, variables,
    continuation lines, white space and comments (cfg.c). */
module BareTokens {
  import opened Bytes
  import opened CStrings
  import opened ConfigTokens

  // ---------- writing without quotes ----------

  predicate Special(c: byte) {
    Terminator(c) || c == QUOTE || c == BACKSLASH || c == DOLLAR
  }

  // One character as it is written without quotes.
  function Marked(c: byte): Text {
    if Special(c) then [BACKSLASH, c] else [c]
  }

  function WriteBare(text: Text): Text {
    if text == [] then [] else Marked(text[0]) + WriteBare(text[1..])
  }

  // What becomes of it: a newline after a backslash is dropped, a tab turned into a blank.
  function Received(c: byte): Text {
    if c == NEWLINE then [] else if c == TAB then [BLANK] else [c]
  }

  function ReadBack(text: Text): Text {
    if text == [] then [] else Received(text[0]) + ReadBack(text[1..])
  }

  lemma {:induction false} ReadBackIsText(text: Text)
    requires NEWLINE !in text && TAB !in text
    ensures ReadBack(text) == text
  {
    if text != [] {
      ReadBackIsText(text[1..]);
      assert text == [text[0]] + text[1..];
    }
  }

  // What follows is the end of the file, or ends the token.
  predicate EndsToken(after: Text) {
    after == [] || Terminator(after[0])
  }

  // `ahead` is all that is left of the file.
  ghost predicate Ahead(s: Source, ahead: Text) {
    Reads(s, ahead) && s.pos + |ahead| == |s.input|
  }

  lemma AheadMore(s: Source, ahead: Text, k: nat)
    requires Ahead(s, ahead) && k <= |ahead|
    ensures Ahead(s.(pos := s.pos + k), ahead[k..])
  {
    ReadsMore(s, ahead, k);
  }

  // ---------- a character that has been read too far ----------

  // The source with the pushed-back character still to be read from the file.
  function Unread(s: Source): Source {
    if s.back != 0 && s.back != EOF && s.pos > 0 then s.(pos := s.pos - 1, back := 0) else s.(back := 0)
  }

  // `ahead` is left of the file, the first character of which may be pushed back, if it ends a
  // token; so may the end of the file.
  ghost predicate Comes(s: Source, ahead: Text) {
    && Ahead(Unread(s), ahead)
    && (|| s.back == 0
        || (s.back == EOF && ahead == [])
        || (s.pos > 0 && ahead != [] && s.back == ahead[0] && Terminator(s.back)))
  }

  // It makes no difference.
  lemma NothingLost(env: Environment, s: Source, ahead: Text)
    requires Comes(s, ahead)
    ensures Next(env, s) == Next(env, Unread(s))
    ensures GetToken(env, s) == GetToken(env, Unread(s))
  {
    hide Quoted, Bare;
    ReadsMore(Unread(s), ahead, 0);
  }

  // ---------- reading a token without quotes ----------

  // The loop of cfg_get_token from the character to be read next, with `text` stored.
  function BareFrom(env: Environment, s: Source, text: Text): TokenResult
  {
    match Next(env, s)
    case Dies => Error
    case Got(ch, s1) => Bare(env, s1, ch, text, false)
  }

  // A backslash that has been written must not meet a dollar sign.
  predicate NoDollar(ahead: Text) {
    ahead == [] || ahead[0] != DOLLAR
  }

  lemma LoneBackslash(env: Environment, s: Source, ahead: Text)
    requires Ahead(s, [BACKSLASH] + ahead) && NoDollar(ahead)
    ensures s.pos < |s.input| && Next(env, s) == Got(BACKSLASH, s.(pos := s.pos + 1))
  {
    ReadsMore(s, [BACKSLASH] + ahead, 0);
    if ahead != [] {
      ReadsMore(s, [BACKSLASH] + ahead, 1);
    }
  }

  // What the loop does with a character it has just read, with or without a backslash before.
  lemma BareStep(env: Environment, s: Source, ch: byte, text: Text, escaped: bool)
    requires s.back == 0 && |text| < MAX_TOKEN && (escaped || !(Terminator(ch) || ch == BACKSLASH))
    ensures Bare(env, s, ch, text, escaped) == BareFrom(env, s, text + if escaped then Received(ch) else [ch])
  {
    hide Next;
    assert text + [] == text;
  }

  // One character, with a backslash if need be, is stored.
  lemma BareChar(env: Environment, s: Source, c: byte, ahead: Text, before: Text)
    requires Ahead(s, Marked(c) + ahead) && (c == BACKSLASH ==> NoDollar(ahead)) && |before| < MAX_TOKEN
    ensures s.pos + |Marked(c)| <= |s.input| && Ahead(s.(pos := s.pos + |Marked(c)|), ahead)
    ensures BareFrom(env, s, before) == BareFrom(env, s.(pos := s.pos + |Marked(c)|), before + Received(c))
  {
    hide Next, BareFrom;
    var all := Marked(c) + ahead;
    AheadMore(s, all, |Marked(c)|);
    assert all[|Marked(c)|..] == ahead;
    var after: Source := s.(pos := s.pos + |Marked(c)|);
    if !Special(c) {
      NextPlain(env, s, all);
      BareGoesOn(env, s, c, after, before);
    } else {
      NextBackslash(env, s, all);
      if c == DOLLAR {
        BareGoesOn(env, s, c, after, before);
      } else {
        var s1: Source := s.(pos := s.pos + 1);
        AheadMore(s, all, 1);
        assert all[1..] == [c] + ahead;
        if c == BACKSLASH {
          LoneBackslash(env, s1, ahead);
        } else {
          NextPlain(env, s1, all[1..]);
        }
        BareEscaped(env, s, s1, c, after, before);
      }
    }
  }

  lemma BareGoesOn(env: Environment, s: Source, c: byte, after: Source, before: Text)
    requires Next(env, s) == Got(c, after) && !Terminator(c) && c != BACKSLASH && |before| < MAX_TOKEN
    ensures BareFrom(env, s, before) == BareFrom(env, after, before + [c])
  {
    BareStep(env, after, c, before, false);
  }

  lemma BareEscaped(env: Environment, s: Source, s1: Source, c: byte, after: Source, before: Text)
    requires Next(env, s) == Got(BACKSLASH, s1) && Next(env, s1) == Got(c, after) && |before| < MAX_TOKEN
    ensures BareFrom(env, s, before) == BareFrom(env, after, before + Received(c))
  {
    hide Next;
    assert BareFrom(env, s, before) == Bare(env, s1, BACKSLASH, before, false);
    assert Bare(env, s1, BACKSLASH, before, false) == Bare(env, after, c, before, true);
    BareStep(env, after, c, before, true);
  }

  // The token ends; the terminator, or the end of the file, is pushed back.
  lemma BareEnds(env: Environment, s: Source, after: Text, text: Text)
    requires Ahead(s, after) && EndsToken(after) && |text| < MAX_TOKEN
    ensures var r := BareFrom(env, s, text);
            r.Token? && r.text == CString(text) && Unread(r.rest) == s && Comes(r.rest, after)
  {
    if after == [] {
      assert Next(env, s) == Got(EOF, s);
    } else {
      NextPlain(env, s, after);
    }
  }

  lemma BareTooLong(env: Environment, s: Source, text: Text)
    requires |text| >= MAX_TOKEN
    ensures BareFrom(env, s, text) == Error
  {
  }

  // Text written without quotes is stored, wherever it stands in a token.
  lemma {:induction false} BarePart(env: Environment, s: Source, text: Text, before: Text, ahead: Text)
    requires Ahead(s, WriteBare(text) + ahead) && (text != [] && text[|text| - 1] == BACKSLASH ==> NoDollar(ahead))
    ensures s.pos + |WriteBare(text)| <= |s.input| && Ahead(s.(pos := s.pos + |WriteBare(text)|), ahead)
    ensures BareFrom(env, s, before) == BareFrom(env, s.(pos := s.pos + |WriteBare(text)|), before + ReadBack(text))
    decreases |text|
  {
    hide Next, Ahead, BareFrom, Marked, Received;
    if text == [] {
      assert WriteBare(text) + ahead == ahead && before + ReadBack(text) == before;
    } else {
      var c, others := text[0], text[1..];
      var s1 := BareHead(env, s, text, before, ahead);
      assert before + Received(c) + ReadBack(others) == before + ReadBack(text);
      BarePart(env, s1, others, before + Received(c), ahead);
    }
  }

  lemma BareHead(env: Environment, s: Source, text: Text, before: Text, ahead: Text) returns (s1: Source)
    requires text != [] && Ahead(s, WriteBare(text) + ahead)
    requires text[|text| - 1] == BACKSLASH ==> NoDollar(ahead)
    ensures s.pos + |Marked(text[0])| <= |s.input| && s1 == s.(pos := s.pos + |Marked(text[0])|)
    ensures Ahead(s1, WriteBare(text[1..]) + ahead)
    ensures BareFrom(env, s, before) == BareFrom(env, s1, before + Received(text[0]))
  {
    hide Next, Ahead, BareFrom, Received;
    var c, more := text[0], WriteBare(text[1..]) + ahead;
    assert WriteBare(text) + ahead == Marked(c) + more;
    assert |text| > 1 ==> more[0] == Marked(text[1])[0];
    assert |text| == 1 ==> more == ahead;
    AheadMore(s, Marked(c) + more, |Marked(c)|);
    assert (Marked(c) + more)[|Marked(c)|..] == more;
    s1 := s.(pos := s.pos + |Marked(c)|);
    if |before| >= MAX_TOKEN {
      BareTooLong(env, s, before);
      BareTooLong(env, s1, before + Received(c));
    } else {
      BareChar(env, s, c, more, before);
    }
  }

  // A token without quotes comes back whatever it holds, but for newlines, which are dropped, and
  // tabs, which become blanks; it ends where it was written to end, and is cut at a NUL.
  lemma BareRoundTrip(env: Environment, s: Source, text: Text, after: Text)
    requires text != [] && Ahead(s, WriteBare(text) + after) && EndsToken(after)
    ensures var r := GetToken(env, s);
            if |ReadBack(text)| >= MAX_TOKEN then r == Error
            else r.Token? && r.text == CString(ReadBack(text)) && Unread(r.rest) == s.(pos := s.pos + |WriteBare(text)|)
                 && Comes(r.rest, after)
  {
    hide CString, Comes, Unread, WriteBare, ReadBack, Bare, Quoted, BareFrom;
    FirstOfBare(env, s, text, after);
    BarePart(env, s, text, [], after);
    assert [] + ReadBack(text) == ReadBack(text);
    TokenEnds(env, s.(pos := s.pos + |WriteBare(text)|), ReadBack(text), after);
  }

  lemma TokenEnds(env: Environment, s: Source, text: Text, after: Text)
    requires Ahead(s, after) && EndsToken(after)
    ensures var r := BareFrom(env, s, text);
            if |text| >= MAX_TOKEN then r == Error
            else r.Token? && r.text == CString(text) && Unread(r.rest) == s && Comes(r.rest, after)
  {
    hide BareFrom, CString, Comes, Unread;
    if |text| >= MAX_TOKEN {
      BareTooLong(env, s, text);
    } else {
      BareEnds(env, s, after, text);
    }
  }

  // A token without quotes starts like one.
  lemma FirstOfBare(env: Environment, s: Source, text: Text, after: Text)
    requires text != [] && Ahead(s, WriteBare(text) + after)
    ensures GetToken(env, s) == BareFrom(env, s, [])
  {
    hide Next, Quoted, Bare;
    var all := WriteBare(text) + after;
    var c := text[0];
    assert all[..|Marked(c)|] == Marked(c);
    assert all[0] == Marked(c)[0];
    if Special(c) {
      assert all[1] == Marked(c)[1];
      NextBackslash(env, s, all);
    } else {
      NextPlain(env, s, all);
    }
  }

  // ---------- the ordinary case ----------

  predicate Ordinary(c: byte) {
    && c != ' ' as int && c != 9 && c != 10 && c != '#' as int && c != '=' as int
    && c != '"' as int && c != '\\' as int && c != '$' as int && c != 0
  }

  lemma {:induction false} OrdinaryIsUnmarked(text: Text)
    requires forall i :: 0 <= i < |text| ==> Ordinary(text[i])
    ensures WriteBare(text) == text && ReadBack(text) == text
  {
    if text != [] {
      OrdinaryIsUnmarked(text[1..]);
      assert text == [text[0]] + text[1..];
    }
  }

  // A word of ordinary characters, shorter than 200 of them, that is followed by a blank, a tab, a
  // newline, "#", "=" or nothing, is a token as it stands, and what follows is still to come.
  lemma OrdinaryWord(env: Environment, s: Source, text: Text, after: Text)
    requires Ahead(s, text + after) && text != [] && forall i :: 0 <= i < |text| ==> Ordinary(text[i])
    requires after != [] ==> after[0] == 32 || after[0] == 9 || after[0] == 10 || after[0] == 35 || after[0] == 61
    ensures var r := GetToken(env, s);
            if |text| >= 200 then r == Error
            else r.Token? && r.text == text && Comes(r.rest, after)
                 && GetToken(env, r.rest) == GetToken(env, s.(pos := s.pos + |text|))
  {
    hide GetToken, Next, Ahead, Comes;
    OrdinaryIsUnmarked(text);
    BareRoundTrip(env, s, text, after);
    CStringIsWhole(text);
    if |text| < MAX_TOKEN {
      NothingLost(env, GetToken(env, s).rest, after);
    }
  }

  // ---------- white space and comments ----------

  type Space = c: byte | c == BLANK || c == TAB || c == NEWLINE witness BLANK

  type OneLine = t: Text | NEWLINE !in t

  // What may stand between tokens: white space and comments, each to the end of its line.
  datatype Gap = NoGap | White(ch: Space, next: Gap) | Remark(text: OneLine, next: Gap)

  function GapText(g: Gap): (r: Text)
    ensures r == [] <==> g.NoGap?
    ensures g != NoGap ==> Terminator(r[0])
  {
    match g
    case NoGap => []
    case White(ch, next) => [ch] + GapText(next)
    case Remark(text, next) => [HASH] + text + [NEWLINE] + GapText(next)
  }

  lemma {:induction false} LineSkipped(s: Source, text: OneLine, ahead: Text)
    requires Ahead(s, text + [NEWLINE] + ahead)
    ensures SkipLine(s) == NewLine(s.(pos := s.pos + |text| + 1))
    decreases |text|
  {
    var all := text + [NEWLINE] + ahead;
    ReadsMore(s, all, 0);
    if text != [] {
      AheadMore(s, all, 1);
      assert all[1..] == text[1..] + [NEWLINE] + ahead;
      LineSkipped(s.(pos := s.pos + 1), text[1..], ahead);
    }
  }

  lemma SpaceSkipped(env: Environment, s: Source, ch: Space, ahead: Text)
    requires Ahead(s, [ch] + ahead)
    ensures s.pos < |s.input| && Ahead(s.(pos := s.pos + 1), ahead)
    ensures GetToken(env, s) == GetToken(env, s.(pos := s.pos + 1))
  {
    hide Next, Quoted, Bare;
    NextPlain(env, s, [ch] + ahead);
    AheadMore(s, [ch] + ahead, 1);
    assert ([ch] + ahead)[1..] == ahead;
  }

  lemma RemarkSkipped(env: Environment, s: Source, text: OneLine, ahead: Text)
    requires Ahead(s, [HASH] + text + [NEWLINE] + ahead)
    ensures s.pos + |text| + 2 <= |s.input| && Ahead(s.(pos := s.pos + |text| + 2), ahead)
    ensures GetToken(env, s) == GetToken(env, s.(pos := s.pos + |text| + 2))
  {
    hide Next, Quoted, Bare, SkipLine, Reads;
    var all := [HASH] + text + [NEWLINE] + ahead;
    NextPlain(env, s, all);
    AheadMore(s, all, 1);
    assert all[1..] == text + [NEWLINE] + ahead;
    LineSkipped(s.(pos := s.pos + 1), text, ahead);
    AheadMore(s, all, |text| + 2);
    assert all[|text| + 2..] == ahead;
  }

  // The reader does not see what stands between tokens, whatever a comment holds.
  lemma {:induction false} GapSkipped(env: Environment, s: Source, g: Gap, ahead: Text)
    requires Ahead(s, GapText(g) + ahead)
    ensures s.pos + |GapText(g)| <= |s.input| && GetToken(env, s) == GetToken(env, s.(pos := s.pos + |GapText(g)|))
    ensures Ahead(s.(pos := s.pos + |GapText(g)|), ahead)
    decreases g
  {
    hide GetToken, Ahead;
    match g {
      case NoGap =>
        assert GapText(g) + ahead == ahead;
      case White(ch, next) =>
        assert GapText(g) + ahead == [ch] + (GapText(next) + ahead);
        SpaceSkipped(env, s, ch, GapText(next) + ahead);
        GapSkipped(env, s.(pos := s.pos + 1), next, ahead);
      case Remark(text, next) =>
        assert GapText(g) + ahead == [HASH] + text + [NEWLINE] + (GapText(next) + ahead);
        RemarkSkipped(env, s, text, GapText(next) + ahead);
        GapSkipped(env, s.(pos := s.pos + |text| + 2), next, ahead);
    }
  }

  // A comment may also end with the file.
  lemma LastRemark(env: Environment, s: Source, text: OneLine)
    requires Ahead(s, [HASH] + text)
    ensures GetToken(env, s) == End(s.(pos := |s.input|))
  {
    hide Next, Quoted, Bare;
    NextPlain(env, s, [HASH] + text);
    AheadMore(s, [HASH] + text, 1);
    assert ([HASH] + text)[1..] == text;
    NoMoreLines(s.(pos := s.pos + 1), text);
  }

  lemma {:induction false} NoMoreLines(s: Source, text: OneLine)
    requires Ahead(s, text)
    ensures SkipLine(s) == NoMore(s.(pos := |s.input|))
    decreases |text|
  {
    if text != [] {
      AheadMore(s, text, 1);
      ReadsMore(s, text, 0);
      NoMoreLines(s.(pos := s.pos + 1), text[1..]);
    }
  }

  // ---------- continuation lines ----------

  predicate IsIndent(indent: Text) {
    forall i :: 0 <= i < |indent| ==> indent[i] == BLANK || indent[i] == TAB
  }

  // A backslash at the end of a line within a quoted string: with the blanks and tabs the next line
  // starts with, it reads as one blank.
  lemma LinesAreJoined(env: Environment, s: Source, indent: Text, ahead: Text, before: Text)
    requires Ahead(s, [BACKSLASH, NEWLINE] + (indent + ahead)) && IsIndent(indent)
    requires ahead != [] && ahead[0] != BLANK && ahead[0] != TAB && ahead[0] != DOLLAR && ahead[0] != 0
    requires |before| < MAX_TOKEN
    ensures Ahead(s.(pos := s.pos + 2 + |indent|), ahead)
    ensures Quoted(env, s, before) == Quoted(env, s.(pos := s.pos + 2 + |indent|), before + [BLANK])
  {
    hide Next, SkipBlanks, Quoted, Ahead;
    LineBreak(env, s, indent + ahead);
    var s1: Source, s2: Source := s.(pos := s.pos + 1), s.(pos := s.pos + 2);
    IndentSkipped(env, s2, indent, ahead);
    var s3: Source := s.(pos := s.pos + 2 + |indent|);
    NextIs(env, s3, ahead);
    Joined(env, s, s1, s2, s3, before);
  }

  lemma LineBreak(env: Environment, s: Source, ahead: Text)
    requires Ahead(s, [BACKSLASH, NEWLINE] + ahead)
    ensures s.pos + 2 <= |s.input| && Next(env, s) == Got(BACKSLASH, s.(pos := s.pos + 1))
    ensures Next(env, s.(pos := s.pos + 1)) == Got(NEWLINE, s.(pos := s.pos + 2))
    ensures Ahead(s.(pos := s.pos + 2), ahead)
  {
    hide Next;
    var all := [BACKSLASH, NEWLINE] + ahead;
    NextBackslash(env, s, all);
    AheadMore(s, all, 1);
    NextPlain(env, s.(pos := s.pos + 1), all[1..]);
    AheadMore(s, all, 2);
    assert all[2..] == ahead;
  }

  lemma Joined(env: Environment, s: Source, s1: Source, s2: Source, s3: Source, before: Text)
    requires Next(env, s) == Got(BACKSLASH, s1) && Next(env, s1) == Got(NEWLINE, s2)
    requires SkipBlanks(env, s2) == Next(env, s3) && Next(env, s3).Got? && Next(env, s3).ch != 0
    requires |before| < MAX_TOKEN
    ensures Quoted(env, s, before) == Quoted(env, s3, before + [BLANK])
  {
    hide Next, SkipBlanks;
    var c, rest := Next(env, s3).ch, Next(env, s3).rest;
    assert Quoted(env, s, before) == Quoted(env, rest.(back := c), before + [BLANK]);
    PushedBack(env, rest, c);
  }

  lemma PushedBack(env: Environment, s: Source, ch: Char)
    requires s.back == 0 && ch != 0
    ensures Next(env, s.(back := ch)) == Got(ch, s)
  {
  }

  lemma NextIs(env: Environment, s: Source, ahead: Text)
    requires Ahead(s, ahead) && ahead != [] && ahead[0] != DOLLAR
    ensures Next(env, s).Got?
    ensures var c := Next(env, s).ch; c == ahead[0] || (ahead[0] == BACKSLASH && c == DOLLAR)
  {
    ReadsMore(s, ahead, 0);
  }

  lemma {:induction false} IndentSkipped(env: Environment, s: Source, indent: Text, ahead: Text)
    requires Ahead(s, indent + ahead) && IsIndent(indent)
    requires ahead != [] && ahead[0] != BLANK && ahead[0] != TAB && ahead[0] != DOLLAR
    ensures s.pos + |indent| <= |s.input| && Ahead(s.(pos := s.pos + |indent|), ahead)
    ensures SkipBlanks(env, s) == Next(env, s.(pos := s.pos + |indent|))
    decreases |indent|
  {
    hide Next;
    if indent == [] {
      assert indent + ahead == ahead;
      NextIs(env, s, ahead);
    } else {
      NextPlain(env, s, indent + ahead);
      AheadMore(s, indent + ahead, 1);
      assert (indent + ahead)[1..] == indent[1..] + ahead;
      IndentSkipped(env, s.(pos := s.pos + 1), indent[1..], ahead);
    }
  }

  // ---------- what is refused ----------

  // Within quotes: a backslash before anything but a quote, a backslash, a newline or a dollar sign,
  // and the end of the file. Without quotes: a backslash at the end of the file.
  lemma BadBackslash(env: Environment, s: Source, c: byte, ahead: Text, before: Text)
    requires Ahead(s, [BACKSLASH, c] + ahead)
    requires c != '"' as int && c != '\\' as int && c != '\n' as int && c != '$' as int
    ensures Quoted(env, s, before) == Error
  {
    hide Next, SkipBlanks;
    var all := [BACKSLASH, c] + ahead;
    NextBackslash(env, s, all);
    AheadMore(s, all, 1);
    NextPlain(env, s.(pos := s.pos + 1), all[1..]);
  }

  lemma BadEnd(env: Environment, s: Source, before: Text)
    ensures Ahead(s, []) ==> Quoted(env, s, before) == Error
    ensures Ahead(s, [BACKSLASH]) ==> BareFrom(env, s, before) == Error
  {
    if Ahead(s, []) {
      assert Next(env, s) == Got(EOF, s);
    }
    if Ahead(s, [BACKSLASH]) {
      LoneBackslash(env, s, []);
      var end: Source := s.(pos := s.pos + 1);
      assert Next(env, end) == Got(EOF, end);
      EscapedEnd(env, s, end, before);
    }
  }

  lemma EscapedEnd(env: Environment, s: Source, end: Source, before: Text)
    requires Next(env, s) == Got(BACKSLASH, end) && Next(env, end) == Got(EOF, end) && end.back == 0
    ensures BareFrom(env, s, before) == Error
  {
    hide Next;
    assert BareFrom(env, s, before) == Bare(env, end, BACKSLASH, before, false);
  }

  // ---------- variables ----------

  // "$NAME" or "${NAME}"
  function Reference(name: Text, braced: bool): Text {
    if braced then ['$' as int, '{' as int] + name + ['}' as int] else ['$' as int] + name
  }

  predicate LetterOrDigit(c: byte) {
    'a' <= c as char <= 'z' || 'A' <= c as char <= 'Z' || '0' <= c as char <= '9' || c as char == '_'
  }

  // Without braces a name goes on as long as there are letters, digits and underscores, and anything
  // but "{" can be its first character; in braces it goes on to the closing one.
  predicate IsReference(name: Text, braced: bool, ahead: Text) {
    if braced then forall i :: 0 <= i < |name| ==> name[i] >= 32 && name[i] != '}' as int
    else
      && name != [] && name[0] != '{' as int
      && (forall i :: 1 <= i < |name| ==> LetterOrDigit(name[i]))
      && (ahead == [] || !LetterOrDigit(ahead[0]))
  }

  // What a reference stands for. It is refused if the name is too long or not known, and without
  // braces also at the end of the line or of the file.
  function VariableValue(env: Environment, name: Text, braced: bool, ahead: Text): Lookup {
    if |name| > 200 || (!braced && (ahead == [] || ahead[0] < 32)) then Unset
    else env(CString(name))
  }

  predicate IsName(name: Text, braced: bool) {
    forall i :: 0 <= i < |name| ==> if braced then name[i] >= BLANK && name[i] != CLOSE else NameChar(name[i])
  }

  lemma {:induction false} NameIsRead(s: Source, braced: bool, read: Text, name: Text, ahead: Text)
    requires Ahead(s, name + ahead) && |read| <= MAX_VAR_NAME && IsName(name, braced)
    requires if braced then ahead != [] && ahead[0] == CLOSE else ahead == [] || !NameChar(ahead[0])
    ensures s.pos + |name| <= |s.input| && (braced ==> s.pos + |name| < |s.input|)
    ensures ReadName(s, braced, read) ==
            if |read| + |name| > MAX_VAR_NAME || (!braced && (ahead == [] || ahead[0] < BLANK)) then BadName
            else Name(read + name, s.(pos := s.pos + |name| + if braced then 1 else 0))
    decreases |name|
  {
    var all := name + ahead;
    ReadsMore(s, all, 0);
    if name == [] {
      hide Reads;
      assert all == ahead && read + name == read;
    } else if |read| < MAX_VAR_NAME {
      hide Reads;
      AheadMore(s, all, 1);
      assert all[1..] == name[1..] + ahead;
      assert read + [name[0]] + name[1..] == read + name;
      NameIsRead(s.(pos := s.pos + 1), braced, read + [name[0]], name[1..], ahead);
    }
  }

  // The name is found, and the place behind the reference.
  lemma ReferenceNamed(s: Source, name: Text, braced: bool, ahead: Text)
    requires Ahead(s, Reference(name, braced) + ahead) && IsReference(name, braced, ahead)
    ensures s.pos + |Reference(name, braced)| <= |s.input| && s.pos + 2 <= |s.input|
    ensures Peek(s.(pos := s.pos + 1)) != EOF && (Peek(s.(pos := s.pos + 1)) == OPEN <==> braced)
    ensures ReadName(s.(pos := s.pos + 2), braced, if braced then [] else [Peek(s.(pos := s.pos + 1))]) ==
            if |name| > MAX_VAR_NAME || (!braced && (ahead == [] || ahead[0] < BLANK)) then BadName
            else Name(name, s.(pos := s.pos + |Reference(name, braced)|))
  {
    hide ReadName, Reads;
    var all := Reference(name, braced) + ahead;
    ReferenceAhead(s, all);
    if braced {
      assert all[2..] == name + ([CLOSE] + ahead);
      NameIsRead(s.(pos := s.pos + 2), true, [], name, [CLOSE] + ahead);
      assert [] + name == name;
    } else {
      assert all[2..] == name[1..] + ahead;
      NameIsRead(s.(pos := s.pos + 2), false, [name[0]], name[1..], ahead);
      assert [name[0]] + name[1..] == name;
    }
  }

  lemma ReferenceExpanded(env: Environment, s: Source, name: Text, braced: bool, ahead: Text)
    requires Ahead(s, Reference(name, braced) + ahead) && IsReference(name, braced, ahead)
    ensures s.pos + |Reference(name, braced)| <= |s.input|
    ensures Expanded(env, s.(pos := s.pos + 1)) ==
            match VariableValue(env, name, braced, ahead)
            case Unset => None
            case Value(text) =>
              var after: Source := s.(pos := s.pos + |Reference(name, braced)|, expansion := CString(text));
              Some(after)
  {
    hide CString, ReadName, Reads, Reference, IsReference;
    ReferenceNamed(s, name, braced, ahead);
  }

  // A reference reads as the value of the variable, followed by what comes behind it.
  lemma VariableIsRead(env: Environment, s: Source, name: Text, braced: bool, ahead: Text)
    requires Ahead(s, Reference(name, braced) + ahead) && IsReference(name, braced, ahead)
    ensures s.pos + |Reference(name, braced)| <= |s.input|
    ensures Ahead(s.(pos := s.pos + |Reference(name, braced)|), ahead)
    ensures Next(env, s) ==
            match VariableValue(env, name, braced, ahead)
            case Unset => Dies
            case Value(text) => Next(env, s.(pos := s.pos + |Reference(name, braced)|, expansion := CString(text)))
  {
    hide CString, Reads, Expanded, VariableValue;
    var all := Reference(name, braced) + ahead;
    ReferenceAhead(s, all);
    ReferenceExpanded(env, s, name, braced, ahead);
    AheadMore(s, all, |Reference(name, braced)|);
    assert all[|Reference(name, braced)|..] == ahead;
  }

  lemma ReferenceAhead(s: Source, all: Text)
    requires Ahead(s, all) && |all| >= 2
    ensures s.back == 0 && s.expansion == [] && s.pos + |all| == |s.input|
    ensures s.input[s.pos] == all[0] && s.input[s.pos + 1] == all[1] && Ahead(s.(pos := s.pos + 2), all[2..])
  {
    ReadsMore(s, all, 0);
    ReadsMore(s, all, 1);
    AheadMore(s, all, 2);
  }

  // ---------- a value within a token ----------

  // Characters a value can bring into a token without having a meaning of their own there.
  predicate FitsBare(value: Text) {
    forall i :: 0 <= i < |value| ==> !Terminator(value[i]) && value[i] != BACKSLASH
  }

  predicate FitsQuoted(value: Text) {
    forall i :: 0 <= i < |value| ==>
                  value[i] != QUOTE && value[i] != BACKSLASH && value[i] != NEWLINE && value[i] != TAB
  }

  lemma {:induction false} BareValue(env: Environment, s: Source, before: Text)
    requires s.back == 0 && FitsBare(s.expansion)
    ensures BareFrom(env, s, before) == BareFrom(env, s.(expansion := []), before + s.expansion)
    decreases |s.expansion|
  {
    hide BareFrom;
    if s.expansion == [] {
      assert before + [] == before;
    } else if |before| >= MAX_TOKEN {
      BareTooLong(env, s, before);
      BareTooLong(env, s.(expansion := []), before + s.expansion);
    } else {
      var c, others: Source := s.expansion[0], s.(expansion := s.expansion[1..]);
      BareGoesOn(env, s, c, others, before);
      assert before + s.expansion == before + [c] + others.expansion;
      BareValue(env, others, before + [c]);
    }
  }

  lemma {:induction false} QuotedValue(env: Environment, s: Source, before: Text)
    requires s.back == 0 && FitsQuoted(s.expansion)
    ensures Quoted(env, s, before) == Quoted(env, s.(expansion := []), before + s.expansion)
    decreases |s.expansion|
  {
    hide SkipBlanks;
    if s.expansion == [] {
      assert before + [] == before;
    } else if |before| < MAX_TOKEN {
      var c, others: Source := s.expansion[0], s.(expansion := s.expansion[1..]);
      assert Next(env, s) == Got(c, others);
      assert before + s.expansion == before + [c] + others.expansion;
      QuotedValue(env, others, before + [c]);
    }
  }

  // Within a token, with or without quotes, the value of a variable takes the place of the reference.
  lemma TokenWithVariable(env: Environment, s: Source, name: Text, braced: bool, ahead: Text, before: Text)
    requires Ahead(s, Reference(name, braced) + ahead) && IsReference(name, braced, ahead)
    ensures s.pos + |Reference(name, braced)| <= |s.input|
    ensures var after: Source := s.(pos := s.pos + |Reference(name, braced)|);
            Ahead(after, ahead) &&
            match VariableValue(env, name, braced, ahead)
            case Unset => BareFrom(env, s, before) == Error && Quoted(env, s, before) == Error
            case Value(text) =>
              && (FitsBare(CString(text)) ==> BareFrom(env, s, before) == BareFrom(env, after, before + CString(text)))
              && (FitsQuoted(CString(text)) ==> Quoted(env, s, before) == Quoted(env, after, before + CString(text)))
  {
    hide CString, Next, Reference, VariableValue, IsReference, SkipBlanks;
    VariableIsRead(env, s, name, braced, ahead);
    var found := VariableValue(env, name, braced, ahead);
    if found.Value? {
      var inside: Source := s.(pos := s.pos + |Reference(name, braced)|, expansion := CString(found.text));
      assert BareFrom(env, s, before) == BareFrom(env, inside, before);
      assert Quoted(env, s, before) == Quoted(env, inside, before);
      if FitsBare(inside.expansion) {
        BareValue(env, inside, before);
      }
      if FitsQuoted(inside.expansion) {
        QuotedValue(env, inside, before);
      }
    }
  }
}
