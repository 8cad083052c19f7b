/** The table of boot images: get_image fills it at install time (bsect.c); the boot prompt looks
    labels up in it, typed in full or by a single key (second.S). Case is ignored, as in the
    default configuration. */
module ImageTable {
  import opened Bytes
  import opened CStrings

  const MAX_IMAGES := 19
  const MAX_IMAGE_NAME := 15
  const SLASH: byte := 47

  // An image descriptor, as far as it takes part in look-up.
  datatype Descr = Descr(name: Text, single: bool)

  const EMPTY := Descr([], false)

  // upcase; toupper
  function Upcase(c: byte): byte {
    if 0x61 <= c <= 0x7a then c - 0x20 else c
  }

  function Fold(text: Text): (r: Text)
    ensures |r| == |text| && forall i :: 0 <= i < |r| ==> r[i] == Upcase(text[i])
  {
    seq(|text|, i requires 0 <= i < |text| => Upcase(text[i]))
  }

  // strcasecmp
  predicate SameLabel(a: Text, b: Text) {
    Fold(a) == Fold(b)
  }

  // The same character, or the same letter from "a" to "z" in upper and lower case.
  predicate SameLetter(c: byte, d: byte) {
    c == d || ('a' as int <= c <= 'z' as int && d == c - 32) || ('a' as int <= d <= 'z' as int && c == d - 32)
  }

  // Labels are the same exactly if they are, letter by letter.
  lemma SameUpToCase(a: Text, b: Text)
    ensures SameLabel(a, b) <==> |a| == |b| && forall i :: 0 <= i < |a| ==> SameLetter(a[i], b[i])
  {
    if SameLabel(a, b) {
      assert |Fold(a)| == |Fold(b)|;
      forall i | 0 <= i < |a|
        ensures SameLetter(a[i], b[i])
      {
        assert Fold(a)[i] == Fold(b)[i];
      }
    }
  }

  // Can be started by typing one character.
  predicate Single(d: Descr) {
    d.single && |d.name| == 1
  }

  function First(text: Text): byte {
    if text == [] then 0 else text[0]
  }

  predicate SingleClash(a: Descr, b: Descr) {
    (Single(a) || Single(b)) && Upcase(First(a.name)) == Upcase(First(b.name))
  }

  predicate Conflict(a: Descr, b: Descr) {
    SameLabel(a.name, b.name) || SingleClash(a, b)
  }

  // Conflicts do not depend on which of the two labels comes first.
  lemma ConflictsAreMutual(a: Descr, b: Descr)
    ensures Conflict(a, b) == Conflict(b, a)
  {
  }

  lemma HasName(d: Descr)
    requires !Conflict(d, EMPTY)
    ensures d.name != []
  {
    assert d.name == [] ==> Fold(d.name) == Fold([]);
  }

  // ---------- install time ----------

  // What follows the last slash of a path.
  function BaseName(path: Text): (r: Text)
    ensures SLASH !in r && |r| <= |path| && path[|path| - |r|..] == r
    ensures r == path || path[|path| - |r| - 1] == SLASH
  {
    if path == [] then []
    else if path[|path| - 1] == SLASH then []
    else BaseName(path[..|path| - 1]) + [path[|path| - 1]]
  }

  // get_image returns a slot or ends the installation.
  datatype Added = Slot(k: nat) | TooLong | Duplicate(other: nat) | Clash(other: nat) | TableFull

  class ImageTable {
    // The label given as "default", if any; its image goes to slot 0.
    const wanted: Option<Text>
    // The table, and the zeroed bytes after it, which get_image also looks at when it is full.
    const descr: array<Descr>
    var image: nat
    var imageBase: nat

    ghost predicate Valid()
      reads this, descr
    {
      && descr.Length == MAX_IMAGES + 1
      && imageBase <= image <= MAX_IMAGES
      && (forall i :: 0 <= i < descr.Length && !(imageBase <= i < image) ==> descr[i] == EMPTY)
      && (forall i :: imageBase <= i < image ==> 0 < |descr[i].name| <= MAX_IMAGE_NAME)
      && (forall i, j :: imageBase <= i < j < image ==> !Conflict(descr[j], descr[i]))
      && DefaultFirst()
    }

    // Slot 0 is kept free for the default image until that is defined, and holds it then.
    ghost predicate DefaultFirst()
      reads this, descr
      requires descr.Length == MAX_IMAGES + 1 && image <= MAX_IMAGES
    {
      && (imageBase > 0 ==> imageBase == 1 && wanted.Some? &&
                            forall i :: imageBase <= i < image ==> !SameLabel(wanted.value, descr[i].name))
      && (imageBase == 0 && wanted.Some? ==> image > 0 && SameLabel(wanted.value, descr[0].name))
    }

    constructor (wanted: Option<Text>)
      ensures Valid() && this.wanted == wanted && fresh(descr)
      ensures image == imageBase == if wanted.Some? then 1 else 0
    {
      this.wanted := wanted;
      this.descr := new Descr[MAX_IMAGES + 1](_ => EMPTY);
      image, imageBase := if wanted.Some? then 1 else 0, if wanted.Some? then 1 else 0;
    }

    // No slot from imageBase up to `other` stands in the way of d.
    ghost predicate FreeUpTo(d: Descr, other: nat)
      reads this, descr
      requires Valid() && other <= MAX_IMAGES + 1
    {
      forall k :: imageBase <= k < other ==> !Conflict(d, descr[k])
    }

    // The search loop of get_image, which goes on to slot `image`.
    method Search(d: Descr) returns (r: Option<Added>)
      requires Valid()
      ensures match r
              case None => FreeUpTo(d, image + 1)
              case Some(why) =>
                && (why.Duplicate? || why.Clash?) && imageBase <= why.other <= image && FreeUpTo(d, why.other)
                && if why.Duplicate? then SameLabel(d.name, descr[why.other].name)
                   else SingleClash(d, descr[why.other]) && !SameLabel(d.name, descr[why.other].name)
    {
      var other := imageBase;
      while other <= image
        invariant imageBase <= other <= image + 1 && FreeUpTo(d, other)
      {
        if SameLabel(d.name, descr[other].name) {
          return Some(Duplicate(other));
        }
        if SingleClash(d, descr[other]) {
          return Some(Clash(other));
        }
        other := other + 1;
      }
      r := None;
    }

    // The end of get_image: the slot for a label that is free.
    method Place(d: Descr) returns (r: Added)
      requires Valid() && |d.name| <= MAX_IMAGE_NAME && FreeUpTo(d, image + 1)
      modifies this, descr
      ensures Valid()
      ensures var atDefault := old(imageBase) > 0 && SameLabel(wanted.value, d.name);
              if !atDefault && old(image) == MAX_IMAGES then r == TableFull
              else
                && r == Slot(if atDefault then 0 else old(image)) && r.k < MAX_IMAGES
                && descr[..] == old(descr[..])[r.k := d]
                && imageBase == (if atDefault then 0 else old(imageBase))
                && image == (if atDefault then old(image) else old(image) + 1)
      ensures r == TableFull ==> unchanged(this) && unchanged(descr)
    {
      hide Conflict, SameLabel;
      assert !Conflict(d, descr[image]);
      HasName(d);
      var thisImage := image;
      if imageBase > 0 && SameLabel(wanted.value, d.name) {
        forall k | 1 <= k < image
          ensures !Conflict(descr[k], d)
        {
          ConflictsAreMutual(d, descr[k]);
        }
        thisImage, imageBase := 0, 0;
      } else {
        if image == MAX_IMAGES {
          return TableFull;
        }
        image := image + 1;
      }
      descr[thisImage] := d;
      r := Slot(thisImage);
    }

    // get_image
    method GetImage(path: Text, given: Option<Text>, single: bool) returns (r: Added)
      requires Valid()
      modifies this, descr
      ensures Valid()
      ensures var d := Descr(if given.Some? then given.value else BaseName(path), single);
              var atDefault := old(imageBase) > 0 && SameLabel(wanted.value, d.name);
              match r
              case TooLong =>
                && |d.name| > MAX_IMAGE_NAME
              case Duplicate(k) =>
                && |d.name| <= MAX_IMAGE_NAME && old(imageBase) <= k <= old(image) && old(FreeUpTo(d, k))
                && SameLabel(d.name, old(descr[k]).name)
              case Clash(k) =>
                && |d.name| <= MAX_IMAGE_NAME && old(imageBase) <= k <= old(image) && old(FreeUpTo(d, k))
                && SingleClash(d, old(descr[k])) && !SameLabel(d.name, old(descr[k]).name)
              case TableFull =>
                && |d.name| <= MAX_IMAGE_NAME && old(FreeUpTo(d, image + 1)) && !atDefault && old(image) == MAX_IMAGES
              case Slot(k) =>
                && |d.name| <= MAX_IMAGE_NAME && old(FreeUpTo(d, image + 1))
                && k == (if atDefault then 0 else old(image)) && k < MAX_IMAGES
                && descr[..] == old(descr[..])[k := d]
                && imageBase == (if atDefault then 0 else old(imageBase))
                && image == (if atDefault then old(image) else old(image) + 1)
      ensures !r.Slot? ==> unchanged(this) && unchanged(descr)
    {
      var name := if given.Some? then given.value else BaseName(path);
      if |name| > MAX_IMAGE_NAME {
        return TooLong;
      }
      var d := Descr(name, single);
      var found := Search(d);
      if found.Some? {
        return found.value;
      }
      r := Place(d);
    }

    // Whatever sequence of images has been defined, the table can be looked up without ambiguity.
    lemma TableIsSound()
      requires Valid()
      ensures Sound(descr[..MAX_IMAGES])
    {
      var t := descr[..MAX_IMAGES];
      forall i, j | 0 <= i < j < MAX_IMAGES && t[i] != EMPTY && t[j] != EMPTY
        ensures !Conflict(t[i], t[j])
      {
        assert t[i] == descr[i] && t[j] == descr[j];
        assert !Conflict(descr[j], descr[i]);
      }
    }
  }

  // ---------- boot time ----------

  // What the boot loader relies on.
  ghost predicate Sound(t: seq<Descr>) {
    && |t| == MAX_IMAGES
    && (forall i :: 0 <= i < |t| ==> t[i] == EMPTY || t[i].name != [])
    && forall i, j :: 0 <= i < j < |t| && t[i] != EMPTY && t[j] != EMPTY ==> !Conflict(t[i], t[j])
  }

  // The label matches what has been typed: it is followed by a blank or by the end of the line.
  predicate Matches(name: Text, line: Text) {
    && |name| <= |line|
    && SameLabel(name, line[..|name|])
    && (|name| == |line| || line[|name|] == BLANK)
  }

  // The loop nextc: compare one label.
  method Compare(name: Text, line: Text) returns (same: bool)
    ensures same == Matches(name, line)
  {
    var i := 0;
    while i < |name|
      invariant i <= |name| && i <= |line| && forall k :: 0 <= k < i ==> Upcase(name[k]) == Upcase(line[k])
    {
      if i == |line| || Upcase(name[i]) != Upcase(line[i]) {
        if i < |line| {
          assert |name| <= |line| ==> Fold(name)[i] != Fold(line[..|name|])[i];
        }
        return false;
      }
      i := i + 1;
    }
    assert Fold(name) == Fold(line[..|name|]);
    same := i == |line| || line[i] == BLANK;
  }

  // bcmd: the first image whose label matches the command line.
  method FindImage(t: seq<Descr>, line: Text) returns (r: Option<nat>)
    ensures match r
            case Some(i) => i < |t| && Matches(t[i].name, line) && forall k :: 0 <= k < i ==> !Matches(t[k].name, line)
            case None => forall k :: 0 <= k < |t| ==> !Matches(t[k].name, line)
  {
    var n := 0;
    while n < |t|
      invariant n <= |t| && forall k :: 0 <= k < n ==> !Matches(t[k].name, line)
    {
      var same := Compare(t[n].name, line);
      if same {
        return Some(n);
      }
      n := n + 1;
    }
    r := None;
  }

  // The loop sklp: the first character of the line starts an image by itself.
  method FindKey(t: seq<Descr>, key: byte) returns (r: Option<nat>)
    requires key > BLANK
    ensures match r
            case Some(i) => i < |t| && StartedBy(t[i], key) && forall k :: 0 <= k < i ==> !StartedBy(t[k], key)
            case None => forall k :: 0 <= k < |t| ==> !StartedBy(t[k], key)
  {
    var n := 0;
    while n < |t|
      invariant n <= |t| && forall k :: 0 <= k < n ==> !StartedBy(t[k], key)
    {
      if t[n].single && Upcase(First(t[n].name)) == Upcase(key) && |t[n].name| == 1 {
        return Some(n);
      }
      n := n + 1;
    }
    r := None;
  }

  predicate StartedBy(d: Descr, key: byte) {
    Single(d) && Upcase(d.name[0]) == Upcase(key)
  }

  // The command line up to the first blank.
  function FirstWord(line: Text): (r: Text)
    ensures |r| <= |line| && line[..|r|] == r && BLANK !in r
    ensures |r| == |line| || line[|r|] == BLANK
  {
    if line == [] || line[0] == BLANK then [] else [line[0]] + FirstWord(line[1..])
  }

  // A label without blanks matches exactly if it is the first word of the line.
  lemma MatchesFirstWord(name: Text, line: Text)
    requires BLANK !in name
    ensures Matches(name, line) <==> SameLabel(name, FirstWord(line))
  {
    var word := FirstWord(line);
    if Matches(name, line) {
      forall i | 0 <= i < |name|
        ensures line[i] != BLANK
      {
        assert Fold(name)[i] == Fold(line[..|name|])[i];
      }
      assert |name| <= |word|;
      assert |word| <= |name|;
    }
    if |name| == |word| {
      assert line[..|name|] == word;
    } else {
      assert |Fold(name)| != |Fold(word)|;
    }
  }

  ghost predicate BlankFree(t: seq<Descr>) {
    forall i :: 0 <= i < |t| ==> BLANK !in t[i].name
  }

  // A typed line starts an image exactly if its first word is that image's label, and then no
  // other label matches: the first match of bcmd is the only one.
  lemma OnlyMatch(t: seq<Descr>, line: Text, i: nat)
    requires Sound(t) && BlankFree(t) && i < |t|
    requires line != [] && line[0] != BLANK
    ensures Matches(t[i].name, line) <==> t[i].name != [] && SameLabel(t[i].name, FirstWord(line))
    ensures Matches(t[i].name, line) ==> forall j :: 0 <= j < |t| && j != i ==> !Matches(t[j].name, line)
  {
    MatchesFirstWord(t[i].name, line);
    assert |Fold(FirstWord(line))| > 0;
    if Matches(t[i].name, line) {
      forall j | 0 <= j < |t| && j != i
        ensures !Matches(t[j].name, line)
      {
        MatchesFirstWord(t[j].name, line);
        if Matches(t[j].name, line) {
          var lo, hi := if i < j then i else j, if i < j then j else i;
          assert Conflict(t[lo], t[hi]);
        }
      }
    }
  }

  // `longer` is `name`, a blank and more.
  predicate Continues(longer: Text, name: Text) {
    |longer| > |name| && Matches(name, longer)
  }

  // Nothing keeps blanks out of labels. Two labels can both match the same line exactly if they
  // are the same, or one continues the other after a blank.
  lemma AmbiguousLabels(a: Text, b: Text)
    ensures (exists line :: Matches(a, line) && Matches(b, line))
            <==> SameLabel(a, b) || Continues(a, b) || Continues(b, a)
  {
    forall line | Matches(a, line) && Matches(b, line)
      ensures SameLabel(a, b) || Continues(a, b) || Continues(b, a)
    {
      if |a| <= |b| {
        MatchesShorter(a, b, line);
      } else {
        MatchesShorter(b, a, line);
      }
    }
    MatchesItself(a);
    MatchesItself(b);
    if SameLabel(a, b) {
      assert |Fold(a)| == |Fold(b)|;
      assert a[..|b|] == a;
      assert Matches(a, a) && Matches(b, a);
    } else if Continues(a, b) {
      assert Matches(a, a) && Matches(b, a);
    } else if Continues(b, a) {
      assert Matches(a, b) && Matches(b, b);
    }
  }

  lemma MatchesItself(a: Text)
    ensures Matches(a, a)
  {
    assert a[..|a|] == a;
  }

  lemma MatchesShorter(a: Text, b: Text, line: Text)
    requires |a| <= |b| && Matches(a, line) && Matches(b, line)
    ensures SameLabel(a, b) || Continues(b, a)
  {
    forall i | 0 <= i < |a|
      ensures Upcase(a[i]) == Upcase(b[i])
    {
      assert Fold(a)[i] == Fold(line[..|a|])[i] && Fold(b)[i] == Fold(line[..|b|])[i];
    }
    assert Fold(a) == Fold(b[..|a|]);
    if |a| < |b| {
      assert Fold(b)[|a|] == Fold(line[..|b|])[|a|];
      assert Upcase(b[|a|]) == BLANK;
    } else {
      assert b[..|a|] == b;
    }
  }

  // A single key starts at most one image, no other label begins with that character, and typing
  // the character as a command would start the same image.
  lemma SingleKeyIsUnambiguous(t: seq<Descr>, key: byte, i: nat)
    requires Sound(t) && i < |t| && StartedBy(t[i], key)
    ensures Matches(t[i].name, [key])
    ensures forall j :: 0 <= j < |t| && j != i && t[j].name != [] ==> Upcase(t[j].name[0]) != Upcase(key)
  {
    assert [key][..1] == [key];
    assert Fold(t[i].name) == Fold([key]);
    forall j | 0 <= j < |t| && j != i && t[j].name != []
      ensures Upcase(t[j].name[0]) != Upcase(key)
    {
      var lo, hi := if i < j then i else j, if i < j then j else i;
      assert !Conflict(t[lo], t[hi]);
    }
  }
}
