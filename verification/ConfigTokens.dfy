/** The configuration file tokenizer (cfg.c): `next` reads a character, expanding variables and
    undoing "\$"; cfg_get_token assembles tokens and undoes the other backslashes. Reading is
    described here by functions on the reader's state; the class ConfigReader, which keeps that
    state in variables and reads in loops, is proved against them. */
module ConfigTokens {
  import opened Bytes
  import opened CStrings

  const MAX_TOKEN := 200
  const MAX_VAR_NAME := MAX_TOKEN
  const EOF: int := -1
  const TAB: int := 9
  const NEWLINE: int := 10
  const QUOTE: int := 34
  const HASH: int := 35
  const DOLLAR: int := 36
  const EQUALS: int := 61
  const BACKSLASH: int := 92
  const OPEN: int := 123
  const CLOSE: int := 125
  const UNDERSCORE: int := 95

  // A byte or EOF, as getc returns it.
  type Char = c: int | -1 <= c < 256

  // getenv
  datatype Lookup = Unset | Value(text: Text)
  type Environment = Text -> Lookup

  // The static variables of next: the file and the position in it, the pushed-back character
  // (0 for none), and what is left of a variable's value.
  datatype SourceFields = SourceFields(input: Text, pos: nat, back: Char, expansion: Text)

  type Source = s: SourceFields | s.pos <= |s.input| witness SourceFields([], 0, 0, [])

  datatype Reading = Got(ch: Char, rest: Source) | Dies

  // getc
  function Peek(s: Source): Char {
    if s.pos < |s.input| then s.input[s.pos] else EOF
  }

  function Skip(s: Source): Source {
    if s.pos < |s.input| then s.(pos := s.pos + 1) else s
  }

  predicate NameChar(ch: Char) {
    (48 <= ch <= 57) || (65 <= ch <= 90) || (97 <= ch <= 122) || ch == UNDERSCORE
  }

  datatype Name = Name(text: Text, rest: Source) | BadName

  // The loop of next that collects a variable name.
  function ReadName(s: Source, braced: bool, name: Text): (r: Name)
    ensures r.Name? ==> r.rest.input == s.input && s.pos <= r.rest.pos
    ensures r.Name? ==> r.rest.back == s.back && r.rest.expansion == s.expansion
    decreases |s.input| - s.pos
  {
    var ch := Peek(s);
    if ch < BLANK then BadName                            // EOF or control character
    else if braced && ch == CLOSE then Name(name, Skip(s))
    else if !braced && !NameChar(ch) then Name(name, s)   // ungetc
    else if |name| == MAX_VAR_NAME then BadName
    else ReadName(Skip(s), braced, name + [ch])
  }

  // A variable reference, behind its dollar sign: the source with the value to be read first, if
  // there is one.
  function Expanded(env: Environment, s: Source): (r: Option<Source>)
    ensures r.Some? ==> r.value.input == s.input && r.value.back == s.back && s.pos < r.value.pos
  {
    var first := Peek(s);
    if first == EOF then None
    else
      match ReadName(Skip(s), first == OPEN, if first == OPEN then [] else [first])
      case BadName => None
      case Name(name, rest) =>
        match env(CString(name))
        case Unset => None
        case Value(text) =>
          var after: Source := rest.(expansion := CString(text));
          Some(after)
  }

  // next
  function Next(env: Environment, s: Source): (r: Reading)
    ensures r.Got? ==> r.rest.back == 0 && r.rest.input == s.input
    ensures r.Got? && r.ch != EOF ==> Shorter(r.rest, s)
    ensures r.Got? ==> r.rest == s || Shorter(r.rest, s)
    decreases |s.input| - s.pos
  {
    if s.back != 0 then Got(s.back, s.(back := 0))
    else if s.expansion != [] then Got(s.expansion[0], s.(expansion := s.expansion[1..]))
    else
      var ch := Peek(s);
      var s1 := Skip(s);
      if ch == BACKSLASH then
        if Peek(s1) == DOLLAR then Got(DOLLAR, Skip(s1)) else Got(BACKSLASH, s1)
      else if ch != DOLLAR then Got(ch, s1)
      else
        match Expanded(env, s1)
        case None => Dies
        case Some(s2) => Next(env, s2)
  }

  // The order in which the source runs out.
  predicate Shorter(s: Source, t: Source) {
    && s.input == t.input
    && (|| s.pos > t.pos
        || (s.pos == t.pos && |s.expansion| < |t.expansion|)
        || (s.pos == t.pos && |s.expansion| == |t.expansion| && s.back == 0 && t.back != 0))
  }

  // ---------- cfg_get_token ----------

  datatype TokenResult = Token(text: Text, rest: Source) | End(rest: Source) | Error

  // Skip blanks and tabs (inside a string that continues on the next line).
  function SkipBlanks(env: Environment, s: Source): (r: Reading)
    ensures r.Got? ==> r.rest.back == 0 && (r.rest == s || Shorter(r.rest, s))
    decreases |s.input| - s.pos, |s.expansion|, if s.back != 0 then 1 else 0
  {
    match Next(env, s)
    case Dies => Dies
    case Got(ch, s1) => if ch == BLANK || ch == TAB then SkipBlanks(env, s1) else Got(ch, s1)
  }

  // The rest of a quoted string, of which `text` has been read.
  function Quoted(env: Environment, s: Source, text: Text): (r: TokenResult)
    decreases |s.input| - s.pos, |s.expansion|, if s.back != 0 then 1 else 0
  {
    if |text| >= MAX_TOKEN then Error
    else
      match Next(env, s)
      case Dies => Error
      case Got(ch, s1) =>
        if ch == EOF then Error
        else if ch == QUOTE then Token(CString(text), s1)
        else if ch == BACKSLASH then
          match Next(env, s1)
          case Dies => Error
          case Got(ch2, s2) =>
            if ch2 == NEWLINE then
              match SkipBlanks(env, s2)
              case Dies => Error
              case Got(ch3, s3) =>
                if ch3 == 0 then Quoted(env, s3, text)
                else Quoted(env, s3.(back := ch3), text + [BLANK])
            else if ch2 == QUOTE || ch2 == BACKSLASH then Quoted(env, s2, text + [ch2])
            else Error
        else if ch == NEWLINE || ch == TAB then Error
        else Quoted(env, s1, text + [ch])
  }

  // Skip white space and comments before a token; the first character of the token, or EOF.
  function TokenStart(env: Environment, s: Source): (r: Reading)
    ensures r.Got? ==> r.rest.back == 0 && (r.rest == s || Shorter(r.rest, s))
    ensures r.Got? && r.ch != EOF ==> Shorter(r.rest, s)
    decreases |s.input| - s.pos, |s.expansion|, if s.back != 0 then 1 else 0
  {
    match Next(env, s)
    case Dies => Dies
    case Got(ch, s1) =>
      if ch == BLANK || ch == TAB || ch == NEWLINE then TokenStart(env, s1)
      else if ch == HASH then
        match SkipLine(s1)
        case NoMore(s2) => Got(EOF, s2)
        case NewLine(s2) => TokenStart(env, s2)
      else Got(ch, s1)
  }

  datatype Line = NewLine(rest: Source) | NoMore(rest: Source)

  // next_raw until the end of the line; no variables are expanded in comments.
  function SkipLine(s: Source): (r: Line)
    ensures r.rest.input == s.input && r.rest.back == s.back && r.rest.expansion == s.expansion
    ensures r.rest.pos >= s.pos
    decreases |s.input| - s.pos
  {
    if Peek(s) == EOF then NoMore(s)
    else if Peek(s) == NEWLINE then NewLine(Skip(s))
    else SkipLine(Skip(s))
  }

  // White space, "#" or "=", which end an unquoted token, unless a backslash stands before.
  predicate Terminator(ch: Char) {
    ch == BLANK || ch == TAB || ch == NEWLINE || ch == HASH || ch == EQUALS
  }

  // An unquoted token: `ch` has been read, `text` stored; `escaped` says a backslash came before.
  function Bare(env: Environment, s: Source, ch: Char, text: Text, escaped: bool): (r: TokenResult)
    requires s.back == 0
    decreases |s.input| - s.pos, |s.expansion|, if ch == EOF then 0 else 1
  {
    if |text| >= MAX_TOKEN then Error
    else if escaped && ch == EOF then Error
    else if !escaped && (Terminator(ch) || ch == EOF) then
      Token(CString(text), s.(back := ch))
    else
      var text' := if escaped then (if ch == NEWLINE then text else text + [if ch == TAB then BLANK else ch])
                   else if ch == BACKSLASH then text else text + [ch];
      match Next(env, s)
      case Dies => Error
      case Got(ch', s') => Bare(env, s', ch', text', !escaped && ch == BACKSLASH)
  }

  // cfg_get_token, when no token has been pushed back
  function GetToken(env: Environment, s: Source): TokenResult {
    match TokenStart(env, s)
    case Dies => Error
    case Got(ch, s1) =>
      if ch == EOF then End(s1)
      else if ch == EQUALS then Token([EQUALS], s1)
      else if ch == QUOTE then Quoted(env, s1, [])
      else Bare(env, s1, ch, [], false)
  }

  // ---------- quoting ----------

  // A string as a careful user writes it between double quotes.
  function Escape(text: Text): Text {
    if text == [] then []
    else (if text[0] == QUOTE || text[0] == BACKSLASH || text[0] == DOLLAR then [BACKSLASH, text[0]] else [text[0]])
         + Escape(text[1..])
  }

  // Quoted strings hold neither a newline nor a tab, and fewer than MAX_TOKEN characters; what
  // comes back ends at a NUL.
  predicate Fits(text: Text) {
    NEWLINE !in text && TAB !in text && |text| < MAX_TOKEN
  }

  predicate Quotable(text: Text) {
    Fits(text) && 0 !in text
  }

  // The source is about to read `ahead`.
  ghost predicate Reads(s: Source, ahead: Text) {
    s.back == 0 && s.expansion == [] && s.pos + |ahead| <= |s.input| && s.input[s.pos..s.pos + |ahead|] == ahead
  }

  lemma ReadsMore(s: Source, ahead: Text, k: nat)
    requires Reads(s, ahead) && k <= |ahead|
    ensures Reads(s.(pos := s.pos + k), ahead[k..])
    ensures k < |ahead| ==> s.input[s.pos + k] == ahead[k]
  {
    assert s.input[s.pos..s.pos + |ahead|][k..] == s.input[s.pos + k..s.pos + |ahead|];
  }

  // Escaped text followed by the closing quote never starts with a dollar.
  lemma EscapedStart(text: Text)
    ensures var e := Escape(text) + [QUOTE];
            e != [] && e[0] != DOLLAR
  {
  }

  lemma NextPlain(env: Environment, s: Source, ahead: Text)
    requires Reads(s, ahead) && ahead != [] && ahead[0] != BACKSLASH && ahead[0] != DOLLAR
    ensures Next(env, s) == Got(ahead[0], s.(pos := s.pos + 1))
  {
    ReadsMore(s, ahead, 0);
  }

  lemma NextBackslash(env: Environment, s: Source, ahead: Text)
    requires Reads(s, ahead) && |ahead| >= 2 && ahead[0] == BACKSLASH
    ensures Next(env, s) == if ahead[1] == DOLLAR then Got(DOLLAR, s.(pos := s.pos + 2))
                            else Got(BACKSLASH, s.(pos := s.pos + 1))
  {
    ReadsMore(s, ahead, 0);
    ReadsMore(s, ahead, 1);
  }

  // One character of the string, escaped if need be, is read back.
  lemma QuotedChar(env: Environment, s: Source, c: byte, ahead: Text, before: Text)
    requires c != NEWLINE && c != TAB && |before| < MAX_TOKEN && ahead != [] && ahead[0] != DOLLAR
    requires Reads(s, Escape([c]) + ahead)
    ensures s.pos + |Escape([c])| <= |s.input|
    ensures Quoted(env, s, before) == Quoted(env, s.(pos := s.pos + |Escape([c])|), before + [c])
    ensures Reads(s.(pos := s.pos + |Escape([c])|), ahead)
  {
    hide Next;
    var all := Escape([c]) + ahead;
    EscapeOne(c);
    ReadsMore(s, all, |Escape([c])|);
    assert all[|Escape([c])|..] == ahead;
    if c == QUOTE || c == BACKSLASH || c == DOLLAR {
      NextBackslash(env, s, all);
      if c != DOLLAR {
        ReadsMore(s, all, 1);
        var s1: Source := s.(pos := s.pos + 1);
        if c == QUOTE {
          NextPlain(env, s1, all[1..]);
        } else {
          NextBackslash(env, s1, all[1..]);
        }
      }
    } else {
      NextPlain(env, s, all);
    }
  }

  lemma EscapeOne(c: byte)
    ensures Escape([c]) == if c == QUOTE || c == BACKSLASH || c == DOLLAR then [BACKSLASH, c] else [c]
  {
    assert Escape([c][1..]) == [];
  }

  // Quoting round trip: a string that fits, in double quotes and escaped, is read back up to its
  // first NUL, and the token ends at the closing quote; any other string is refused.
  lemma {:induction false} QuotedRoundTrip(env: Environment, s: Source, text: Text, before: Text, after: Text)
    requires Fits(before) && Reads(s, Escape(text) + [QUOTE] + after)
    ensures Quoted(env, s, before) ==
            if Fits(before + text) then Token(CString(before + text), s.(pos := s.pos + |Escape(text)| + 1)) else Error
    ensures Reads(s.(pos := s.pos + |Escape(text)| + 1), after)
    decreases |text|
  {
    hide Next, Reads, Quoted, CString, Escape;
    EscapeEnds(text);
    StillReads(s, text, after);
    if text == [] {
      assert Escape(text) + [QUOTE] + after == [QUOTE] + after && before + text == before;
      ClosingQuote(env, s, before, after);
    } else {
      var c, others := text[0], text[1..];
      EscapeOne(c);
      EscapedStart(others);
      var ahead := Escape(others) + [QUOTE] + after;
      assert Escape(text) + [QUOTE] + after == Escape([c]) + ahead;
      assert before + [c] + others == before + text && c in before + text;
      if c == NEWLINE || c == TAB {
        BadChar(env, s, c, ahead, before);
      } else {
        QuotedChar(env, s, c, ahead, before);
        if |before| + 1 == MAX_TOKEN {
          TooLong(env, s.(pos := s.pos + |Escape([c])|), before + [c]);
        } else {
          QuotedRoundTrip(env, s.(pos := s.pos + |Escape([c])|), others, before + [c], after);
        }
      }
    }
  }

  lemma EscapeEnds(text: Text)
    ensures if text == [] then Escape(text) == [] else Escape(text) == Escape([text[0]]) + Escape(text[1..])
  {
    if text != [] {
      EscapeOne(text[0]);
    }
  }

  lemma ClosingQuote(env: Environment, s: Source, before: Text, after: Text)
    requires |before| < MAX_TOKEN && Reads(s, [QUOTE] + after)
    ensures Quoted(env, s, before) == Token(CString(before), s.(pos := s.pos + 1))
  {
    hide Next;
    NextPlain(env, s, [QUOTE] + after);
  }

  lemma BadChar(env: Environment, s: Source, c: byte, ahead: Text, before: Text)
    requires (c == NEWLINE || c == TAB) && Reads(s, Escape([c]) + ahead)
    ensures Quoted(env, s, before) == Error
  {
    hide Next;
    EscapeOne(c);
    NextPlain(env, s, Escape([c]) + ahead);
  }

  lemma TooLong(env: Environment, s: Source, before: Text)
    requires |before| >= MAX_TOKEN
    ensures Quoted(env, s, before) == Error
  {
  }

  lemma StillReads(s: Source, text: Text, after: Text)
    requires Reads(s, Escape(text) + [QUOTE] + after)
    ensures Reads(s.(pos := s.pos + |Escape(text)| + 1), after)
  {
    hide Escape;
    ReadsMore(s, Escape(text) + [QUOTE] + after, |Escape(text)| + 1);
    assert (Escape(text) + [QUOTE] + after)[|Escape(text)| + 1..] == after;
  }

  function Quote(text: Text): Text {
    [QUOTE] + Escape(text) + [QUOTE]
  }

  // A whole token comes back as it was written exactly if it can be quoted.
  lemma TokenRoundTrip(env: Environment, s: Source, text: Text, after: Text)
    requires Reads(s, Quote(text) + after)
    ensures GetToken(env, s) == if Fits(text) then Token(CString(text), s.(pos := s.pos + |Quote(text)|)) else Error
    ensures GetToken(env, s) == Token(text, s.(pos := s.pos + |Quote(text)|)) <==> Quotable(text)
    ensures Reads(s.(pos := s.pos + |Quote(text)|), after)
  {
    hide Next, Reads, Quoted, CString;
    var ahead := Quote(text) + after;
    NextPlain(env, s, ahead);
    ReadsMore(s, ahead, 1);
    assert ahead[1..] == Escape(text) + [QUOTE] + after;
    QuotedRoundTrip(env, s.(pos := s.pos + 1), text, [], after);
    assert [] + text == text;
    CStringIsWhole(text);
  }

  // No token of any kind, quoted or not, is one that could not be quoted: what is read can be
  // written back.
  lemma TokensAreQuotable(env: Environment, s: Source)
    ensures GetToken(env, s).Token? ==> Quotable(GetToken(env, s).text)
  {
    hide Next, Quoted, Bare;
    if TokenStart(env, s).Got? {
      var ch, s1 := TokenStart(env, s).ch, TokenStart(env, s).rest;
      QuotedIsQuotable(env, s1, []);
      if ch != EOF {
        BareIsQuotable(env, s1, ch, [], false);
      }
    }
  }

  lemma {:induction false} QuotedIsQuotable(env: Environment, s: Source, text: Text)
    requires NEWLINE !in text && TAB !in text
    ensures Quoted(env, s, text).Token? ==> Quotable(Quoted(env, s, text).text)
    decreases |s.input| - s.pos, |s.expansion|, if s.back != 0 then 1 else 0
  {
    hide Next, SkipBlanks;
    if |text| < MAX_TOKEN && Next(env, s).Got? {
      var ch, s1 := Next(env, s).ch, Next(env, s).rest;
      if ch == EOF || ch == QUOTE || ch == NEWLINE || ch == TAB {
      } else if ch != BACKSLASH {
        QuotedIsQuotable(env, s1, text + [ch]);
      } else if Next(env, s1).Got? {
        var ch2, s2 := Next(env, s1).ch, Next(env, s1).rest;
        if ch2 == QUOTE || ch2 == BACKSLASH {
          QuotedIsQuotable(env, s2, text + [ch2]);
        } else if ch2 == NEWLINE && SkipBlanks(env, s2).Got? {
          var ch3, s3 := SkipBlanks(env, s2).ch, SkipBlanks(env, s2).rest;
          if ch3 == 0 {
            QuotedIsQuotable(env, s3, text);
          } else {
            QuotedIsQuotable(env, s3.(back := ch3), text + [BLANK]);
          }
        }
      }
    }
  }

  lemma {:induction false} BareIsQuotable(env: Environment, s: Source, ch: Char, text: Text, escaped: bool)
    requires s.back == 0 && NEWLINE !in text && TAB !in text
    ensures Bare(env, s, ch, text, escaped).Token? ==> Quotable(Bare(env, s, ch, text, escaped).text)
    decreases |s.input| - s.pos, |s.expansion|, if ch == EOF then 0 else 1
  {
    hide Next;
    if |text| >= MAX_TOKEN || (escaped && ch == EOF) {
    } else if !escaped && (Terminator(ch) || ch == EOF) {
    } else if Next(env, s).Got? {
      var text' := if escaped then (if ch == NEWLINE then text else text + [if ch == TAB then BLANK else ch])
                   else if ch == BACKSLASH then text else text + [ch];
      BareIsQuotable(env, Next(env, s).rest, Next(env, s).ch, text', !escaped && ch == BACKSLASH);
    }
  }
}
