/** The password prompt of the boot loader (second.S, pwagain .. pwfail): typed characters are
    compared as they come, with a pointer SI into the stored password and a counter CL of
    characters typed since the first mismatch. Nothing typed is stored. */
module PasswordPrompt {
  import opened Bytes

  const MAX_PW := 15
  const CR: byte := 13
  const BS: byte := 8
  const DEL: byte := 127
  const CTRL_U: byte := 21
  const CTRL_X: byte := 24

  // A stored password: a NUL-terminated string.
  predicate ValidPassword(pw: seq<byte>) {
    |pw| <= MAX_PW && forall i :: 0 <= i < |pw| ==> pw[i] != 0
  }

  // What getkey returns: a key, or that none came in time.
  datatype Key = Typed(c: byte) | TimeOut

  datatype Verdict = Accepted | Rejected | Waiting

  // ---------- the plain line editor ----------

  // What a line editor makes of one key other than CR.
  function Edit(line: seq<byte>, key: byte): seq<byte> {
    if key == CTRL_U || key == CTRL_X then []
    else if key == BS || key == DEL then (if line == [] then [] else line[..|line| - 1])
    else if 32 <= key < 127 then line + [key]
    else line
  }

  function CommonPrefix(line: seq<byte>, pw: seq<byte>): (n: nat)
    ensures n <= |line| && n <= |pw|
  {
    if line == [] || pw == [] || line[0] != pw[0] then 0 else 1 + CommonPrefix(line[1..], pw[1..])
  }

  // Characters typed behind the first mismatch.
  function Wrong(line: seq<byte>, pw: seq<byte>): nat {
    |line| - CommonPrefix(line, pw)
  }

  // The verdict on a key sequence: CR compares the edited line with the password; a time-out or
  // 256 wrong characters at once end the input as well.
  function Judge(line: seq<byte>, keys: seq<Key>, pw: seq<byte>): Verdict
    decreases |keys|
  {
    if keys == [] then Waiting
    else if keys[0] == TimeOut then Rejected
    else if keys[0].c == CR then (if line == pw then Accepted else Rejected)
    else
      var line' := Edit(line, keys[0].c);
      if Wrong(line', pw) >= 256 then Rejected else Judge(line', keys[1..], pw)
  }

  // ---------- the prefix shared with the password ----------

  lemma {:induction false} CommonPrefixIs(line: seq<byte>, pw: seq<byte>, n: nat)
    requires n <= |line| && n <= |pw| && line[..n] == pw[..n]
    requires n == |line| || n == |pw| || line[n] != pw[n]
    ensures CommonPrefix(line, pw) == n
  {
    if n > 0 {
      assert line[0] == line[..n][0] && pw[0] == pw[..n][0];
      assert line[1..][..n - 1] == line[..n][1..] && pw[1..][..n - 1] == pw[..n][1..];
      CommonPrefixIs(line[1..], pw[1..], n - 1);
    }
  }

  lemma {:induction false} PrefixAgrees(line: seq<byte>, pw: seq<byte>)
    ensures var n := CommonPrefix(line, pw);
            && line[..n] == pw[..n]
            && (n == |line| || n == |pw| || line[n] != pw[n])
  {
    var n := CommonPrefix(line, pw);
    if n > 0 {
      PrefixAgrees(line[1..], pw[1..]);
      assert line[..n] == [line[0]] + line[1..][..n - 1];
      assert pw[..n] == [pw[0]] + pw[1..][..n - 1];
    }
  }

  lemma OneMoreChar(line: seq<byte>, pw: seq<byte>, c: byte)
    ensures var n := CommonPrefix(line, pw);
            CommonPrefix(line + [c], pw) == if n == |line| && n < |pw| && pw[n] == c then n + 1 else n
  {
    var n := CommonPrefix(line, pw);
    var longer := line + [c];
    PrefixAgrees(line, pw);
    if n == |line| && n < |pw| && pw[n] == c {
      assert longer[..n + 1] == pw[..n] + [c] == pw[..n + 1];
      CommonPrefixIs(longer, pw, n + 1);
    } else {
      assert longer[..n] == line[..n];
      CommonPrefixIs(longer, pw, n);
    }
  }

  lemma OneCharLess(line: seq<byte>, pw: seq<byte>)
    requires line != []
    ensures var n := CommonPrefix(line, pw);
            CommonPrefix(line[..|line| - 1], pw) == if n == |line| then n - 1 else n
  {
    var n := CommonPrefix(line, pw);
    var shorter := line[..|line| - 1];
    PrefixAgrees(line, pw);
    if n == |line| {
      assert shorter == pw[..n][..n - 1] == pw[..n - 1];
      CommonPrefixIs(shorter, pw, n - 1);
    } else {
      assert shorter[..n] == line[..n];
      CommonPrefixIs(shorter, pw, n);
    }
  }

  // ---------- the loader's loop ----------

  // pwagain: SI runs over the descriptor's password field and, after a mismatch, possibly
  // beyond it; only where it has not passed a mismatch is it dereferenced.
  method CheckPassword(pw: seq<byte>, keys: seq<Key>) returns (v: Verdict)
    requires ValidPassword(pw)
    ensures v == Judge([], keys, pw)
  {
    var si, cl := 0, 0;                                   // SI relative to the password field
    var k := 0;
    ghost var line: seq<byte> := [];
    while k < |keys|
      invariant 0 <= k <= |keys|
      invariant 0 <= cl <= 255 && si == |line| && cl == Wrong(line, pw)
      invariant Judge(line, keys[k..], pw) == Judge([], keys, pw)
    {
      if keys[k] == TimeOut {
        return Rejected;                                  // pwtime
      }
      var al := keys[k].c;
      ghost var before := line;
      if al != CR {
        line := Edit(line, al);
      }
      assert keys[k..][1..] == keys[k + 1..];
      k := k + 1;
      if al == CR {
        PrefixAgrees(line, pw);
        return if cl == 0 && Stored(pw, si) == 0 then Accepted else Rejected;
      } else if al == CTRL_U || al == CTRL_X {
        si, cl := 0, 0;
      } else if al == BS || al == DEL {
        if si != 0 {
          OneCharLess(before, pw);
          si := si - 1;
          cl := if cl == 0 then 0 else cl - 1;            // sub cl,#1; on underflow inc cl
        }
      } else if al > 127 || al < 32 {
      } else {
        OneMoreChar(before, pw, al);
        if cl != 0 || al != Stored(pw, si) {
          cl := (cl + 1) % 0x100;
          if cl == 0 {
            return Rejected;                              // overflow
          }
        }
        si := si + 1;
      }
    }
    v := Waiting;
  }

  // The byte SI points to while CL is zero.
  function Stored(pw: seq<byte>, si: nat): byte {
    if si < |pw| then pw[si] else 0
  }

  // ---------- what the verdict means ----------

  function LineAfter(line: seq<byte>, keys: seq<byte>): seq<byte>
    decreases |keys|
  {
    if keys == [] then line else LineAfter(Edit(line, keys[0]), keys[1..])
  }

  // The line never strays 256 characters behind a mismatch.
  ghost predicate NeverFarOff(line: seq<byte>, keys: seq<byte>, pw: seq<byte>)
    decreases |keys|
  {
    keys != [] ==> Wrong(Edit(line, keys[0]), pw) < 256 && NeverFarOff(Edit(line, keys[0]), keys[1..], pw)
  }

  // Keys typed in time, and how the input ends.
  function Then(keys: seq<byte>, last: Key): seq<Key> {
    if keys == [] then [last] else [Typed(keys[0])] + Then(keys[1..], last)
  }

  // CR after any keys is accepted exactly when the edited line is the password, provided the
  // line was never 256 characters off; otherwise, and after a time-out, the input is rejected.
  lemma {:induction false} AcceptedIffEqual(line: seq<byte>, keys: seq<byte>, pw: seq<byte>)
    requires CR !in keys
    ensures Judge(line, Then(keys, Typed(CR)), pw)
            == if NeverFarOff(line, keys, pw) && LineAfter(line, keys) == pw then Accepted else Rejected
    ensures Judge(line, Then(keys, TimeOut), pw) == Rejected
    decreases |keys|
  {
    if keys != [] {
      AcceptedIffEqual(Edit(line, keys[0]), keys[1..], pw);
    }
  }

  // ---------- what the keys do ----------

  predicate Printable(key: byte) {
    ' ' <= key as char <= '~'
  }

  // Printable characters are put behind the line; backspace (8) and delete (127) take back the last
  // of them; ^U (21) and ^X (24) take back everything; no other key changes the line.
  lemma {:induction false} KeysOfEditor(line: seq<byte>, typed: seq<byte>, more: seq<byte>, key: byte)
    requires forall i :: 0 <= i < |typed| ==> Printable(typed[i])
    ensures LineAfter(line, typed) == line + typed
    ensures (key == 8 || key == 127) && typed != [] ==> Edit(line + typed, key) == line + typed[..|typed| - 1]
    ensures key == 8 || key == 127 ==> Edit([], key) == []
    ensures key == 21 || key == 24 ==> LineAfter(line, [key] + more) == LineAfter([], more)
    ensures !Printable(key) && key !in {8, 21, 24, 127} ==> Edit(line, key) == line
    decreases |typed|
  {
    assert ([key] + more)[1..] == more;
    if typed == [] {
      assert line + typed == line;
    } else {
      assert line + [typed[0]] + typed[1..] == line + typed;
      KeysOfEditor(line + [typed[0]], typed[1..], more, key);
      assert (line + typed)[..|line + typed| - 1] == line + typed[..|typed| - 1];
    }
  }

  // Typing the password, and nothing else, is always accepted.
  lemma PasswordAccepted(pw: seq<byte>)
    requires ValidPassword(pw) && forall i :: 0 <= i < |pw| ==> Printable(pw[i])
    ensures Judge([], Then(pw, Typed(CR)), pw) == Accepted
  {
    KeysOfEditor([], pw, [], 0);
    assert [] + pw == pw;
    NotFarOff([], pw, pw);
    AcceptedIffEqual([], pw, pw);
  }

  lemma {:induction false} NotFarOff(line: seq<byte>, keys: seq<byte>, pw: seq<byte>)
    requires |line| + |keys| < 256
    ensures NeverFarOff(line, keys, pw)
    decreases |keys|
  {
    if keys != [] {
      NotFarOff(Edit(line, keys[0]), keys[1..], pw);
    }
  }
}
