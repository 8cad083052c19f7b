/** The configuration file reader as cfg.c runs it: one reader per file, with characters, tokens
    and items that can be pushed back, and cfg_next, which pairs items with their values. */
module ConfigReader {
  import opened ConfigTokens
  import opened CStrings

  // An entry of the configuration file: "name" or "name=value".
  datatype Item = Item(name: Text, value: Option<Text>)

  // The reader's variables: the character source, last_token and last_item/last_value.
  datatype Parser = Parser(source: Source, token: Option<Text>, item: Option<Item>)

  datatype Step<T> = Is(value: T, after: Parser) | Nothing(after: Parser) | Fails

  // ---------- what is read ----------

  // cfg_get_token
  function TokenOf(env: Environment, p: Parser): Step<Text> {
    if p.token.Some? then Is(p.token.value, p.(token := None))
    else
      match GetToken(env, p.source)
      case Token(text, rest) => Is(text, p.(source := rest))
      case End(rest) => Nothing(p.(source := rest))
      case Error => Fails
  }

  // cfg_next
  function NextItem(env: Environment, p: Parser): Step<Item> {
    if p.item.Some? then Is(p.item.value, p.(item := None))
    else
      match TokenOf(env, p)
      case Nothing(p1) => Nothing(p1)
      case Fails => Fails
      case Is(name, p1) => if name == [EQUALS] then Fails else ValueOf(env, name, p1)
  }

  // The second half of cfg_next: the value, if there is one.
  function ValueOf(env: Environment, name: Text, p: Parser): Step<Item> {
    match TokenOf(env, p)
    case Nothing(p1) => Is(Item(name, None), p1)
    case Fails => Fails
    case Is(text, p1) =>
      if text != [EQUALS] then Is(Item(name, None), p1.(token := Some(text)))
      else
        match TokenOf(env, p1)
        case Is(value, p2) => if value == [EQUALS] then Fails else Is(Item(name, Some(value)), p2)
        case Nothing(_) => Fails
        case Fails => Fails
  }

  // What `count` calls of cfg_next return, if the next call then reports the end of the file.
  function Items(env: Environment, p: Parser, count: nat): Option<seq<Item>>
    decreases count
  {
    match NextItem(env, p)
    case Fails => None
    case Nothing(_) => if count == 0 then Some([]) else None
    case Is(item, p1) =>
      if count == 0 then None
      else
        match Items(env, p1, count - 1)
        case None => None
        case Some(others) => Some([item] + others)
  }

  // ---------- the reader ----------

  datatype Outcome<T> = Returns(value: T) | EndOfFile | Exits

  class Reader {
    const env: Environment
    const input: Text
    var pos: nat
    var back: Char
    var expansion: Text
    var lastToken: Option<Text>
    var lastItem: Option<Item>

    ghost predicate Valid()
      reads this
    {
      pos <= |input|
    }

    ghost function Left(): Source
      reads this
      requires Valid()
    {
      SourceFields(input, pos, back, expansion)
    }

    ghost function State(): Parser
      reads this
      requires Valid()
    {
      Parser(Left(), lastToken, lastItem)
    }

    constructor (env: Environment, input: Text)
      ensures Valid() && this.env == env && this.input == input
      ensures State() == Parser(SourceFields(input, 0, 0, []), None, None)
    {
      this.env, this.input := env, input;
      pos, back, expansion := 0, 0, [];
      lastToken, lastItem := None, None;
    }

    method GetC() returns (ch: Char)
      requires Valid()
      modifies this`pos
      ensures Valid() && ch == Peek(old(Left())) && Left() == Skip(old(Left()))
    {
      if pos == |input| {
        return EOF;
      }
      ch := input[pos];
      pos := pos + 1;
    }

    method UngetC(ch: Char)
      requires Valid() && (ch != EOF ==> pos > 0)
      modifies this`pos
      ensures Valid() && pos == if ch == EOF then old(pos) else old(pos) - 1
    {
      if ch != EOF {
        pos := pos - 1;
      }
    }

    // The variable name after "$" or "${".
    method VariableName(braced: bool, first: Text) returns (r: Outcome<Text>)
      requires Valid()
      modifies this`pos
      ensures Valid()
      ensures match ReadName(old(Left()), braced, first)
              case Name(name, rest) => r == Returns(name) && Left() == rest
              case BadName => r == Exits
    {
      var name: Text := first;
      while true
        invariant Valid() && ReadName(old(Left()), braced, first) == ReadName(Left(), braced, name)
        decreases |input| - pos
      {
        var ch := GetC();
        if ch < BLANK {
          return Exits;
        }
        if braced && ch == CLOSE {
          return Returns(name);
        }
        if !braced && !NameChar(ch) {
          UngetC(ch);
          return Returns(name);
        }
        if |name| == MAX_VAR_NAME {
          return Exits;
        }
        name := name + [ch];
      }
    }

    // next
    method ReadChar() returns (r: Outcome<Char>)
      requires Valid()
      modifies this`pos, this`back, this`expansion
      ensures Valid() && !r.EndOfFile?
      ensures match Next(env, old(Left()))
              case Got(ch, rest) => r == Returns(ch) && Left() == rest
              case Dies => r == Exits
      decreases |input| - pos
    {
      if back != 0 {
        r := Returns(back);
        back := 0;
        return;
      }
      if expansion != [] {
        r := Returns(expansion[0]);
        expansion := expansion[1..];
        return;
      }
      var ch := GetC();
      if ch == BACKSLASH {
        ch := GetC();
        if ch == DOLLAR {
          return Returns(ch);
        }
        UngetC(ch);
        return Returns(BACKSLASH);
      }
      if ch != DOLLAR {
        return Returns(ch);
      }
      ch := GetC();
      if ch == EOF {
        return Exits;   // found by the loop's first getc
      }
      var name := VariableName(ch == OPEN, if ch == OPEN then [] else [ch]);
      if name == Exits {
        return Exits;
      }
      var found := env(CString(name.value));
      if found == Unset {
        return Exits;
      }
      expansion := CString(found.text);
      r := ReadChar();
    }

    // again, which is only called after next has emptied `back`
    method Again(ch: Char)
      requires Valid() && back == 0
      modifies this`back
      ensures Valid() && Left() == old(Left()).(back := ch)
    {
      back := ch;
    }

    // The loop that drops a comment; whether there is another line.
    method SkipComment() returns (more: bool)
      requires Valid() && back == 0
      modifies this`pos
      ensures Valid() && SkipLine(old(Left())) == if more then NewLine(Left()) else NoMore(Left())
    {
      while true
        invariant Valid() && SkipLine(old(Left())) == SkipLine(Left())
        decreases |input| - pos
      {
        var ch := GetC();
        if ch == NEWLINE {
          return true;
        }
        if ch == EOF {
          return false;
        }
      }
    }

    // The first character of the next token; EOF if there is none.
    method StartToken() returns (r: Outcome<Char>)
      requires Valid()
      modifies this`pos, this`back, this`expansion
      ensures Valid() && !r.EndOfFile?
      ensures match TokenStart(env, old(Left()))
              case Got(ch, rest) => r == Returns(ch) && Left() == rest
              case Dies => r == Exits
    {
      hide Next, SkipLine;
      while true
        invariant Valid() && TokenStart(env, old(Left())) == TokenStart(env, Left())
        decreases |input| - pos, |expansion|, if back != 0 then 1 else 0
      {
        r := ReadChar();
        if r == Exits {
          return;
        }
        if r.value == HASH {
          var more := SkipComment();
          if !more {
            return Returns(EOF);
          }
        } else if r.value != BLANK && r.value != TAB && r.value != NEWLINE {
          return;
        }
      }
    }

    // The loop that joins two lines of a quoted string.
    method JoinLines() returns (r: Outcome<Char>)
      requires Valid()
      modifies this`pos, this`back, this`expansion
      ensures Valid() && !r.EndOfFile?
      ensures match SkipBlanks(env, old(Left()))
              case Got(ch, rest) => r == Returns(ch) && Left() == rest
              case Dies => r == Exits
    {
      hide Next;
      while true
        invariant Valid() && SkipBlanks(env, old(Left())) == SkipBlanks(env, Left())
        decreases |input| - pos, |expansion|, if back != 0 then 1 else 0
      {
        r := ReadChar();
        if r == Exits || (r.value != BLANK && r.value != TAB) {
          return;
        }
      }
    }

    ghost predicate Ends(r: Outcome<Text>, promised: TokenResult)
      reads this
      requires Valid()
    {
      match promised
      case Token(text, rest) => r == Returns(text) && Left() == rest
      case End(rest) => r == EndOfFile && Left() == rest
      case Error => r == Exits
    }

    // A quoted string, after its opening quote.
    method ReadQuoted() returns (r: Outcome<Text>)
      requires Valid()
      modifies this`pos, this`back, this`expansion
      ensures Valid() && Ends(r, Quoted(env, old(Left()), []))
    {
      hide Next, SkipBlanks;
      var text: Text := [];
      while |text| < MAX_TOKEN
        invariant Valid() && Quoted(env, old(Left()), []) == Quoted(env, Left(), text)
        decreases |input| - pos, |expansion|, if back != 0 then 1 else 0
      {
        var c := ReadChar();
        if c == Exits || c.value == EOF {
          return Exits;
        }
        var ch := c.value;
        if ch == QUOTE {
          return Returns(CString(text));
        }
        if ch == BACKSLASH {
          c := ReadChar();
          if c == Exits || (c.value != QUOTE && c.value != BACKSLASH && c.value != NEWLINE) {
            return Exits;
          }
          ch := c.value;
          if ch == NEWLINE {
            c := JoinLines();
            if c == Exits {
              return Exits;
            }
            if c.value == 0 {
              continue;
            }
            Again(c.value);
            ch := BLANK;
          }
        }
        if ch == NEWLINE || ch == TAB {
          return Exits;
        }
        text := text + [ch];
      }
      r := Exits;
    }

    // A token without quotes that starts with `first`.
    method ReadBare(first: Char) returns (r: Outcome<Text>)
      requires Valid() && back == 0
      modifies this`pos, this`back, this`expansion
      ensures Valid() && Ends(r, Bare(env, old(Left()), first, [], false))
    {
      hide Next;
      var text: Text := [];
      var ch, escaped := first, false;
      while |text| < MAX_TOKEN
        invariant Valid() && back == 0
        invariant Bare(env, old(Left()), first, [], false) == Bare(env, Left(), ch, text, escaped)
        decreases |input| - pos, |expansion|, if ch == EOF then 0 else 1
      {
        if escaped {
          if ch == EOF {
            return Exits;
          }
          if ch != NEWLINE {
            text := text + [if ch == TAB then BLANK else ch];
          }
          escaped := false;
        } else {
          if ch == BLANK || ch == TAB || ch == NEWLINE || ch == HASH || ch == EQUALS || ch == EOF {
            Again(ch);
            return Returns(CString(text));
          }
          escaped := ch == BACKSLASH;
          if !escaped {
            text := text + [ch];
          }
        }
        var c := ReadChar();
        if c == Exits {
          return Exits;
        }
        ch := c.value;
      }
      r := Exits;
    }

    ghost predicate Reports<T>(r: Outcome<T>, promised: Step<T>)
      reads this
      requires Valid()
    {
      match promised
      case Is(value, after) => r == Returns(value) && State() == after
      case Nothing(after) => r == EndOfFile && State() == after
      case Fails => r == Exits
    }

    // cfg_get_token
    method ReadToken() returns (r: Outcome<Text>)
      requires Valid()
      modifies this
      ensures Valid() && Reports(r, TokenOf(env, old(State())))
    {
      hide TokenStart, Quoted, Bare, Next;
      if lastToken.Some? {
        r := Returns(lastToken.value);
        lastToken := None;
        return;
      }
      var c := StartToken();
      if c == Exits {
        return Exits;
      }
      if c.value == EOF {
        r := EndOfFile;
      } else if c.value == EQUALS {
        r := Returns([EQUALS]);
      } else if c.value == QUOTE {
        r := ReadQuoted();
      } else {
        r := ReadBare(c.value);
      }
    }

    // cfg_next
    method ReadItem() returns (r: Outcome<Item>)
      requires Valid()
      modifies this
      ensures Valid() && Reports(r, NextItem(env, old(State())))
    {
      hide TokenOf;
      if lastItem.Some? {
        r := Returns(lastItem.value);
        lastItem := None;
        return;
      }
      var name := ReadToken();
      if !name.Returns? {
        return if name == EndOfFile then EndOfFile else Exits;
      }
      if name.value == [EQUALS] {
        return Exits;
      }
      var text := ReadToken();
      if text == Exits {
        return Exits;
      }
      if text == EndOfFile {
        return Returns(Item(name.value, None));
      }
      if text.value != [EQUALS] {
        lastToken := Some(text.value);
        return Returns(Item(name.value, None));
      }
      var value := ReadToken();
      if !value.Returns? || value.value == [EQUALS] {
        return Exits;
      }
      r := Returns(Item(name.value, Some(value.value)));
    }

    // cfg_return: the next call of cfg_next returns this item, whatever is pushed back besides, and
    // leaves everything else to be read as before.
    method ReturnItem(item: Item)
      requires Valid()
      modifies this`lastItem
      ensures Valid() && State() == old(State()).(item := Some(item))
      ensures NextItem(env, State()) == Is(item, old(State()).(item := None))
    {
      lastItem := Some(item);
    }
  }

  // ---------- what can be returned ----------

  // What cfg_next can return at all: strings that can be quoted, other than "=".
  predicate Plain(text: Text) {
    Quotable(text) && text != [EQUALS]
  }

  predicate PlainItem(item: Item) {
    Plain(item.name) && (item.value.Some? ==> Plain(item.value.value))
  }

  // Whatever the file holds, cfg_next returns nothing but plain items.
  lemma ItemsArePlain(env: Environment, p: Parser)
    requires p.item == None && (p.token.Some? ==> Plain(p.token.value))
    ensures NextItem(env, p).Is? ==>
              && PlainItem(NextItem(env, p).value) && NextItem(env, p).after.item == None
              && var token := NextItem(env, p).after.token; token.Some? ==> Plain(token.value)
  {
    hide GetToken;
    TokensAreQuotable(env, p.source);
    if TokenOf(env, p).Is? {
      var p1 := TokenOf(env, p).after;
      TokensAreQuotable(env, p1.source);
      if TokenOf(env, p1).Is? {
        TokensAreQuotable(env, TokenOf(env, p1).after.source);
      }
    }
  }

  lemma {:induction false} AllItemsArePlain(env: Environment, p: Parser, count: nat)
    requires p.item == None && (p.token.Some? ==> Plain(p.token.value))
    ensures var r := Items(env, p, count); r.Some? ==> forall i :: 0 <= i < |r.value| ==> PlainItem(r.value[i])
    decreases count
  {
    hide NextItem, PlainItem;
    ItemsArePlain(env, p);
    if count > 0 && NextItem(env, p).Is? {
      AllItemsArePlain(env, NextItem(env, p).after, count - 1);
    }
  }
}
