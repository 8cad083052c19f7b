/** The decimal printer of the disk utility (disk.S): a 64-bit number, held in four words, is
    divided by 1000 until nothing is left, and the remainders are printed in groups of three
    digits separated by commas. */
module DecimalPrinter {
  import opened Bytes

  // ---------- multi-word numbers ----------

  // A number in words, least significant first.
  function Value(a: seq<word>): nat {
    if a == [] then 0 else a[0] + 0x1_0000 * Value(a[1..])
  }

  lemma DivideOneWord(high: nat, highQ: nat, d: nat, dx: nat, w: nat, q: nat, r: nat)
    requires high == highQ * d + dx && dx * 0x1_0000 + w == q * d + r
    ensures w + 0x1_0000 * high == (q + 0x1_0000 * highQ) * d + r
  {
    assert (q + 0x1_0000 * highQ) * d == q * d + 0x1_0000 * (highQ * d);
  }

  // intdiv: divide the number at `src` by AX into `dst`, which may be `src` itself. The zero
  // flag comes from OR-ing the quotient words together.
  method IntDiv(src: array<word>, dst: array<word>, ax: word) returns (dx: word, zero: bool)
    requires src.Length == dst.Length && ax != 0
    modifies dst
    ensures Value(old(src[..])) == Value(dst[..]) * ax + dx && dx < ax
    ensures zero <==> Value(dst[..]) == 0
    ensures src != dst ==> src[..] == old(src[..])
  {
    ghost var number := src[..];
    dx, zero := 0, true;
    var i := src.Length;
    while i > 0
      invariant 0 <= i <= src.Length
      invariant forall k :: 0 <= k < i ==> src[k] == number[k]
      invariant src != dst ==> src[..] == number
      invariant Value(number[i..]) == Value(dst[i..]) * ax + dx && dx < ax
      invariant zero <==> Value(dst[i..]) == 0
    {
      i := i - 1;
      ghost var tail, w := dst[i + 1..], src[i];
      ghost var high := dx;
      var q;
      q, dx := DivWord(dx, src[i], ax);
      dst[i] := q;
      zero := zero && q == 0;
      assert number[i..] == [w] + number[i + 1..] && dst[i..] == [q] + tail;
      DivideOneWord(Value(number[i + 1..]), Value(tail), ax, high, w, q, dx);
    }
    assert number[0..] == number && dst[0..] == dst[..];
  }

  // ---------- reading decimal text ----------

  predicate IsDigit(c: char) { '0' <= c <= '9' }

  // The number a text spells; commas are skipped.
  function NumberIn(s: string): nat {
    if s == "" then 0
    else
      var c := s[|s| - 1];
      if IsDigit(c) then NumberIn(s[..|s| - 1]) * 10 + (c as int - '0' as int) else NumberIn(s[..|s| - 1])
  }

  predicate AllDigits(s: string) { forall i :: 0 <= i < |s| ==> IsDigit(s[i]) }

  // One to three digits, then groups of a comma and exactly three digits.
  predicate Grouped(s: string) {
    if |s| <= 3 then 1 <= |s| && AllDigits(s)
    else s[|s| - 4] == ',' && AllDigits(s[|s| - 3..]) && Grouped(s[..|s| - 4])
  }

  // No leading zero: only the number zero itself starts with one.
  predicate WellGrouped(s: string) {
    Grouped(s) && s != "" && (s[0] == '0' ==> |s| == 1)
  }

  lemma DigitAppended(s: string, d: nat)
    requires d <= 9
    ensures var c := '0' + d as char;
            IsDigit(c) && NumberIn(s + [c]) == NumberIn(s) * 10 + d && (AllDigits(s) ==> AllDigits(s + [c]))
  {
    var c := '0' + d as char;
    assert (s + [c])[..|s|] == s;
  }

  lemma GroupAppended(s: string, group: string)
    requires |group| == 3 && AllDigits(group) && Grouped(s)
    ensures Grouped(s + "," + group)
    ensures NumberIn(s + "," + group) == NumberIn(s) * 1000 + NumberIn(group)
  {
    var t := s + "," + group;
    assert t[|t| - 3..] == group && t[..|t| - 4] == s;
    ThreeMore(s + ",", group);
    ThreeMore("", group);
    assert "" + group == group && (s + ",")[..|s|] == s;
  }

  lemma ThreeMore(s: string, group: string)
    requires |group| == 3 && AllDigits(group)
    ensures NumberIn(s + group) == NumberIn(s) * 1000 + (group[0] as int - '0' as int) * 100
                                   + (group[1] as int - '0' as int) * 10 + (group[2] as int - '0' as int)
  {
    var t := s + group;
    var t1, t2 := t[..|t| - 1], t[..|t| - 2];
    assert t[..|t| - 1] == t1 && t1[..|t1| - 1] == t2 && t2[..|t2| - 1] == s;
    assert NumberIn(t) == NumberIn(t1) * 10 + (group[2] as int - '0' as int);
    assert NumberIn(t1) == NumberIn(t2) * 10 + (group[1] as int - '0' as int);
    assert NumberIn(t2) == NumberIn(s) * 10 + (group[0] as int - '0' as int);
  }

  // ---------- printing ----------

  // Push a digit unless it is a leading zero: BH is zero until one has been pushed.
  method PutDigit(out: string, al: byte, bh: byte) returns (more: string, newBh: byte)
    requires al <= 9 && (bh == 0 || bh == 0x80) && AllDigits(out)
    ensures if al == bh then more == out && newBh == bh else |more| == |out| + 1 && newBh == 0x80
    ensures al != bh ==> NumberIn(more) == NumberIn(out) * 10 + al
    ensures AllDigits(more) && out <= more && (out == "" && more != "" && bh == 0 ==> more[0] != '0')
  {
    more, newBh := out, bh;
    if al != bh {                                         // xor al,bh
      DigitAppended(out, al);
      more := out + ['0' + al as char];
      newBh := 0x80;
    }
  }

  lemma NothingYet()
    ensures NumberIn("") == 0 && AllDigits("")
  {
  }

  // dec3: a number below 1000. BH is 0x80 if leading zeros are to be printed.
  method Dec3(number: nat, leadingZeros: bool) returns (out: string)
    requires number < 1000
    ensures AllDigits(out) && NumberIn(out) == number
    ensures if leadingZeros then |out| == 3 else 1 <= |out| <= 3 && (out[0] == '0' ==> |out| == 1 && number == 0)
  {
    hide NumberIn, AllDigits;
    NothingYet();
    out := "";
    var bh: byte := if leadingZeros then 0x80 else 0;
    var ax: word, bl: byte, cx := number, 100, 2;
    while cx > 0
      invariant 0 <= cx <= 2 && AllDigits(out)
      invariant bh == (if leadingZeros || out != "" then 0x80 else 0)
      invariant |out| <= 2 - cx && (leadingZeros ==> |out| == 2 - cx)
      invariant out != "" && !leadingZeros ==> out[0] != '0'
      invariant bl == (if cx == 2 then 100 else 10)
      invariant if cx == 2 then ax == number < 1000
                else if cx == 1 then ax < 100 && number == NumberIn(out) * 100 + ax
                else ax < 10 && number == NumberIn(out) * 10 + ax
    {
      var al, ah := DivByte(ax, bl);
      out, bh := PutDigit(out, al, bh);
      ax, bl, cx := ah, 10, cx - 1;
    }
    DigitAppended(out, ax);
    out := out + ['0' + ax as char];
  }

  // Remainders on the stack, latest first, complete a quotient to the number divided.
  function Join(q: nat, stack: seq<word>): nat
    decreases |stack|
  {
    if stack == [] then q else Join(q * 1000 + stack[0], stack[1..])
  }

  // What is left of a 64-bit number after k divisions by 1000 is below this.
  function Limit(k: nat): nat {
    if k == 0 then 0x1_0000_0000_0000_0000 else Limit(k - 1) / 512
  }

  lemma FourWords(a: seq<word>)
    requires |a| == 4
    ensures Value(a) < Limit(0)
  {
    assert Value(a[1..][1..][1..]) < 0x1_0000;
    assert Value(a[1..][1..]) < 0x1_0000_0000;
    assert Value(a[1..]) < 0x1_0000_0000_0000;
  }

  lemma Limits()
    ensures Limit(1) == 0x80_0000_0000_0000 && Limit(2) == 0x4000_0000_0000 && Limit(3) == 0x20_0000_0000
    ensures Limit(4) == 0x1000_0000 && Limit(5) == 0x8_0000 && Limit(6) == 0x400 && Limit(7) == 2 && Limit(8) == 0
  {
  }

  // dpr1: divide until the quotient is zero, pushing the remainders; BX counts them.
  method PushGroups(number: array<word>) returns (stack: seq<word>)
    requires number.Length == 4
    ensures 1 <= |stack| <= 8 && forall i :: 0 <= i < |stack| ==> stack[i] < 1000
    ensures Join(0, stack) == Value(number[..])
    ensures |stack| > 1 ==> stack[0] != 0
  {
    ghost var v := Value(number[..]);
    var ac := new word[4](_ => 0);
    FourWords(number[..]);
    Limits();
    var dx, zero := IntDiv(number, ac, 1000);
    stack := [dx];
    while !zero
      invariant fresh(ac) && 1 <= |stack| <= 8 && Value(ac[..]) <= Limit(|stack|)
      invariant forall i :: 0 <= i < |stack| ==> stack[i] < 1000
      invariant Join(Value(ac[..]), stack) == v == Value(number[..])
      invariant zero <==> Value(ac[..]) == 0
      invariant zero && |stack| > 1 ==> stack[0] != 0
      decreases Value(ac[..])
    {
      ghost var before := Value(ac[..]);
      dx, zero := IntDiv(ac, ac, 1000);
      Pushed(Value(ac[..]), dx, stack, before);
      stack := [dx] + stack;
    }
  }

  lemma Pushed(q: nat, dx: word, stack: seq<word>, before: nat)
    requires before == q * 1000 + dx && dx < 1000
    ensures Join(q, [dx] + stack) == Join(before, stack)
    ensures |stack| <= 8 && before <= Limit(|stack|) && before > 0 ==> |stack| < 8 && q <= Limit(|stack| + 1)
  {
    Limits();
    assert ([dx] + stack)[1..] == stack;
  }

  // dprint: for every 64-bit number, a well-grouped decimal that spells it.
  method Dprint(number: array<word>) returns (out: string)
    requires number.Length == 4
    ensures WellGrouped(out) && NumberIn(out) == Value(number[..])
  {
    hide Value;
    var stack := PushGroups(number);
    var bl := |stack|;
    out := Dec3(stack[0], false);
    stack := stack[1..];
    bl := bl - 1;                                         // dec bl
    while bl != 0
      invariant Grouped(out) && out != "" && (out[0] == '0' ==> bl == 0 && |out| == 1)
      invariant bl == |stack| && Join(NumberIn(out), stack) == Value(number[..])
      invariant forall i :: 0 <= i < |stack| ==> stack[i] < 1000
    {
      var group := Dec3(stack[0], true);
      GroupAppended(out, group);
      out := out + "," + group;
      stack := stack[1..];
      bl := bl - 1;
    }
  }
}
