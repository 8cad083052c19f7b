/** Configuration files as they are written: entries "name" or "name=value" in any layout, each word
    with or without quotes, and white space and comments between them. Reading such a file with
    cfg_next gives back the entries. */
module ConfigLayout {
  import opened CStrings
  import opened ConfigTokens
  import opened BareTokens
  import opened ConfigReader

  // ---------- a file ----------

  // A name or value, as it is written. Without quotes it cannot be empty.
  datatype WordFields = Word(text: Text, quoted: bool)

  type Word = w: WordFields | w.quoted || w.text != [] witness Word([], true)

  function Written(w: Word): (r: Text)
    ensures r != []
  {
    if w.quoted then Quote(w.text) else WriteBare(w.text)
  }

  // "=" and a value, with what stands before and behind the sign.
  datatype Assigned = Assigned(before: Gap, after: Gap, word: Word)

  datatype Entry = Entry(before: Gap, name: Word, value: Option<Assigned>) {
    // Its last word, which may need something to end it.
    function Last(): Word {
      if value.Some? then value.value.word else name
    }

    function Meaning(): Item {
      Item(name.text, if value.Some? then Some(value.value.word.text) else None)
    }

    function ValueText(): Text {
      match value
      case None => []
      case Some(v) => GapText(v.before) + ([EQUALS] + (GapText(v.after) + Written(v.word)))
    }
  }

  // What stands behind the last entry; the last line may be a comment that is not ended.
  datatype Ending = Ending(gap: Gap, remark: Option<OneLine>) {
    function Text(): (r: Text)
      ensures EndsToken(r)
    {
      GapText(gap) + if remark.Some? then [HASH] + remark.value else []
    }
  }

  function FileText(entries: seq<Entry>, end: Ending): Text {
    if entries == [] then end.Text()
    else
      var e := entries[0];
      GapText(e.before) + (Written(e.name) + (e.ValueText() + FileText(entries[1..], end)))
  }

  // A word without quotes does not run into the next entry.
  predicate Apart(entries: seq<Entry>) {
    forall i :: 0 < i < |entries| ==> entries[i - 1].Last().quoted || entries[i].before != NoGap
  }

  // Names and values are what cfg_next can return at all.
  predicate AllPlain(entries: seq<Entry>) {
    forall i :: 0 <= i < |entries| ==> PlainItem(entries[i].Meaning())
  }

  // ---------- reading it ----------

  // What comes next ends a word without quotes.
  lemma EntryEnds(entries: seq<Entry>, end: Ending)
    requires Apart(entries) && entries != []
    ensures var e, others := entries[0], FileText(entries[1..], end);
            && (e.name.quoted || EndsToken(e.ValueText() + others))
            && (e.Last().quoted || EndsToken(others))
  {
    hide Written;
    if |entries| > 1 {
      assert entries[1..][0] == entries[1];
    }
  }

  // Past a gap nothing has been read too far.
  lemma GapAhead(env: Environment, s: Source, g: Gap, ahead: Text) returns (t: Source)
    requires Comes(s, GapText(g) + ahead)
    ensures GetToken(env, s) == GetToken(env, t) && Ahead(t, ahead)
  {
    hide GetToken, Ahead, GapText;
    NothingLost(env, s, GapText(g) + ahead);
    GapSkipped(env, Unread(s), g, ahead);
    t := Unread(s).(pos := Unread(s).pos + |GapText(g)|);
  }

  lemma WordAhead(env: Environment, s: Source, g: Gap, w: Word, after: Text)
    requires Comes(s, GapText(g) + (Written(w) + after)) && Plain(w.text) && (w.quoted || EndsToken(after))
    ensures var r := GetToken(env, s); r.Token? && r.text == w.text && Comes(r.rest, after)
  {
    hide GetToken, Comes, Ahead, Quote, WriteBare, ReadBack;
    var t := GapAhead(env, s, g, Written(w) + after);
    if w.quoted {
      QuoteAhead(env, t, w.text, after);
    } else {
      BareRoundTrip(env, t, w.text, after);
      ReadBackIsText(w.text);
      CStringIsWhole(w.text);
    }
  }

  lemma QuoteAhead(env: Environment, s: Source, text: Text, after: Text)
    requires Ahead(s, Quote(text) + after) && Quotable(text)
    ensures var r := GetToken(env, s); r.Token? && r.text == text && Comes(r.rest, after)
  {
    hide GetToken, Quote;
    TokenRoundTrip(env, s, text, after);
  }

  lemma SignAhead(env: Environment, s: Source, g: Gap, after: Text)
    requires Comes(s, GapText(g) + ([EQUALS] + after))
    ensures var r := GetToken(env, s); r.Token? && r.text == [EQUALS] && Comes(r.rest, after)
  {
    hide Comes, Next, Quoted, Bare;
    var t := GapAhead(env, s, g, [EQUALS] + after);
    NextPlain(env, t, [EQUALS] + after);
    AheadMore(t, [EQUALS] + after, 1);
    assert ([EQUALS] + after)[1..] == after;
    UnreadNothing(t.(pos := t.pos + 1), after);
  }

  lemma UnreadNothing(s: Source, ahead: Text)
    requires Ahead(s, ahead)
    ensures Comes(s, ahead)
  {
  }

  lemma EndAhead(env: Environment, s: Source, end: Ending)
    requires Comes(s, end.Text())
    ensures GetToken(env, s).End? && Comes(GetToken(env, s).rest, [])
  {
    hide Comes, Next, GetToken;
    var remark := if end.remark.Some? then [HASH] + end.remark.value else [];
    var t := GapAhead(env, s, end.gap, remark);
    if end.remark.Some? {
      LastRemark(env, t, end.remark.value);
      UnreadNothing(t.(pos := |t.input|), []);
    } else {
      AtEnd(env, t);
      UnreadNothing(t, []);
    }
  }

  lemma AtEnd(env: Environment, s: Source)
    requires Ahead(s, [])
    ensures GetToken(env, s) == End(s)
  {
    assert Next(env, s) == Got(EOF, s);
  }

  // The reader is about to read these entries; the first name may already be in last_token. After
  // the last entry it may have seen the end of the file.
  ghost predicate Before(p: Parser, entries: seq<Entry>, end: Ending) {
    && p.item == None
    && if p.token == None then
         Comes(p.source, FileText(entries, end)) || (entries == [] && Comes(p.source, []))
       else
         && entries != [] && p.token == Some(entries[0].name.text)
         && Comes(p.source, entries[0].ValueText() + FileText(entries[1..], end))
  }

  // The next name, from wherever cfg_next may have left off.
  lemma NameAhead(env: Environment, p: Parser, entries: seq<Entry>, end: Ending)
    requires Before(p, entries, end) && Apart(entries) && AllPlain(entries)
    ensures var r := TokenOf(env, p);
            if entries == [] then r.Nothing? && Before(r.after, [], end)
            else
              && r.Is? && r.value == entries[0].name.text && r.after.token == None && r.after.item == None
              && Comes(r.after.source, entries[0].ValueText() + FileText(entries[1..], end))
  {
    hide GetToken, Comes, Apart, Plain;
    if p.token == None {
      if entries == [] {
        if Comes(p.source, end.Text()) {
          EndAhead(env, p.source, end);
        } else {
          NoneAhead(env, p.source);
        }
      } else {
        var e := entries[0];
        assert PlainItem(e.Meaning());
        EntryEnds(entries, end);
        WordAhead(env, p.source, e.before, e.name, e.ValueText() + FileText(entries[1..], end));
      }
    }
  }

  lemma NoneAhead(env: Environment, s: Source)
    requires Comes(s, [])
    ensures GetToken(env, s).End? && Comes(GetToken(env, s).rest, [])
  {
    assert Ending(NoGap, None).Text() == [];
    EndAhead(env, s, Ending(NoGap, None));
  }

  // The value, once the name has been read,
  lemma ValueAhead(env: Environment, p: Parser, e: Entry, others: Text)
    requires p.token == None && p.item == None && PlainItem(e.Meaning()) && e.value.Some?
    requires Comes(p.source, e.ValueText() + others) && (e.Last().quoted || EndsToken(others))
    ensures var r := ValueOf(env, e.name.text, p);
            && r.Is? && r.value == e.Meaning()
            && r.after.item == None && r.after.token == None && Comes(r.after.source, others)
  {
    hide GetToken, Comes, Quotable, Written, GapText;
    var v := e.value.value;
    assert e.ValueText() + others
        == GapText(v.before) + ([EQUALS] + (GapText(v.after) + (Written(v.word) + others)));
    SignAhead(env, p.source, v.before, GapText(v.after) + (Written(v.word) + others));
    WordAhead(env, GetToken(env, p.source).rest, v.after, v.word, others);
  }

  // or its absence.
  lemma RestAhead(env: Environment, p: Parser, entries: seq<Entry>, end: Ending)
    requires entries != [] && p.token == None && p.item == None && Apart(entries) && AllPlain(entries)
    requires Comes(p.source, entries[0].ValueText() + FileText(entries[1..], end))
    ensures var r := ValueOf(env, entries[0].name.text, p);
            r.Is? && r.value == entries[0].Meaning() && Before(r.after, entries[1..], end)
  {
    hide TokenOf, Comes, FileText, Quotable;
    var e, others := entries[0], FileText(entries[1..], end);
    assert PlainItem(e.Meaning());
    if e.value == None {
      assert e.ValueText() + others == others;
      NameAhead(env, p, entries[1..], end);
      assert entries[1..] != [] ==> PlainItem(entries[1].Meaning());
    } else {
      EntryEnds(entries, end);
      hide ValueOf, Entry.ValueText, EndsToken;
      ValueAhead(env, p, e, others);
    }
  }

  // A name and the sign behind it.
  lemma SignBehind(env: Environment, s: Source, w: Word, g0: Gap, g1: Gap, after: Text)
    requires Plain(w.text) && Comes(s, GapText(g0) + (Written(w) + (GapText(g1) + ([EQUALS] + after))))
    ensures var r := GetToken(env, s); r.Token? && r.text == w.text
    ensures var r := GetToken(env, GetToken(env, s).rest); r.Token? && r.text == [EQUALS] && Comes(r.rest, after)
  {
    hide GetToken, Comes, Quotable, Written;
    var behind := GapText(g1) + ([EQUALS] + after);
    assert behind[0] == if g1 == NoGap then EQUALS else GapText(g1)[0];
    WordAhead(env, s, g0, w, behind);
    SignAhead(env, GetToken(env, s).rest, g1, after);
  }

  // cfg_next refuses a "=" that has no name before it,
  lemma NameIsMissing(env: Environment, p: Parser, g: Gap, after: Text)
    requires p.item == None && p.token == None && Comes(p.source, GapText(g) + ([EQUALS] + after))
    ensures NextItem(env, p) == Fails
  {
    hide GetToken, Comes;
    SignAhead(env, p.source, g, after);
  }

  // that ends the file,
  lemma ValueIsMissing(env: Environment, p: Parser, w: Word, g0: Gap, g1: Gap, end: Ending)
    requires p.item == None && p.token == None && Plain(w.text)
    requires Comes(p.source, GapText(g0) + (Written(w) + (GapText(g1) + ([EQUALS] + end.Text()))))
    ensures NextItem(env, p) == Fails
  {
    hide GetToken, Comes, Quotable, Written, GapText;
    SignBehind(env, p.source, w, g0, g1, end.Text());
    EndAhead(env, GetToken(env, GetToken(env, p.source).rest).rest, end);
  }

  // or that another one follows.
  lemma SignIsRepeated(env: Environment, p: Parser, w: Word, g0: Gap, g1: Gap, g2: Gap, after: Text)
    requires p.item == None && p.token == None && Plain(w.text)
    requires Comes(p.source,
                   GapText(g0) + (Written(w) + (GapText(g1) + ([EQUALS] + (GapText(g2) + ([EQUALS] + after))))))
    ensures NextItem(env, p) == Fails
  {
    hide GetToken, Comes, Quotable, Written, GapText;
    SignBehind(env, p.source, w, g0, g1, GapText(g2) + ([EQUALS] + after));
    SignAhead(env, GetToken(env, GetToken(env, p.source).rest).rest, g2, after);
  }

  function Meanings(entries: seq<Entry>): (items: seq<Item>)
    ensures |items| == |entries| && forall i :: 0 <= i < |items| ==> items[i] == entries[i].Meaning()
  {
    seq(|entries|, i requires 0 <= i < |entries| => entries[i].Meaning())
  }

  lemma {:induction false} EntriesComeBack(env: Environment, p: Parser, entries: seq<Entry>, end: Ending)
    requires Before(p, entries, end) && Apart(entries) && AllPlain(entries)
    ensures Items(env, p, |entries|) == Some(Meanings(entries))
    decreases |entries|
  {
    hide TokenOf, ValueOf, Comes, FileText, Quotable;
    NameAhead(env, p, entries, end);
    if entries == [] {
      assert Meanings(entries) == [];
    } else {
      assert PlainItem(entries[0].Meaning());
      var p1 := TokenOf(env, p).after;
      RestAhead(env, p1, entries, end);
      EntriesComeBack(env, ValueOf(env, entries[0].name.text, p1).after, entries[1..], end);
      assert Meanings(entries) == [entries[0].Meaning()] + Meanings(entries[1..]);
    }
  }

  // A configuration file in any layout gives back its entries, in order, exactly if no name or
  // value is "=", holds a newline, tab or NUL, or has 200 characters or more.
  lemma ConfigRoundTrip(env: Environment, entries: seq<Entry>, end: Ending)
    requires Apart(entries)
    ensures var p := Parser(SourceFields(FileText(entries, end), 0, 0, []), None, None);
            Items(env, p, |entries|) == Some(Meanings(entries)) <==> AllPlain(entries)
  {
    hide NextItem, FileText, PlainItem;
    var text := FileText(entries, end);
    var p := Parser(SourceFields(text, 0, 0, []), None, None);
    assert text[0..|text|] == text;
    AllItemsArePlain(env, p, |entries|);
    if AllPlain(entries) {
      EntriesComeBack(env, p, entries, end);
    } else {
      var i :| 0 <= i < |entries| && !PlainItem(entries[i].Meaning());
      assert Meanings(entries)[i] == entries[i].Meaning();
    }
  }
}
