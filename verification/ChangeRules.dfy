/** Partition table change rules: vetted by add_rule (partition.c) at install time, applied by
    the chain loader (chain.S) at boot through a one-sector cache. */
module ChangeRules {
  import opened Bytes
  import opened CStrings

  const PRTMAP_SIZE := 32
  const PART_TABLE_OFFSET := 0x1be
  const PARTITION_ENTRY := 16
  const PART_TYPE_ENT_OFF := 4
  const PART_ACT_ENT_OFF := 0

  // "On this drive, change the table byte at this offset from `want` to `put`."
  datatype Rule = Rule(drive: byte, offset: byte, want: byte, put: byte)

  // ---------- installing rules ----------

  datatype Added = Ok | TooMany | Repeated | Redundant

  predicate SamePlace(r: Rule, s: Rule) {
    r.drive == s.drive && r.offset == s.offset
  }

  // A rule that would pick up the result of an earlier one is redundant.
  predicate Clashes(earlier: Rule, later: Rule) {
    earlier == later || (SamePlace(earlier, later) && earlier.put == later.want)
  }

  ghost predicate FirstClash(rules: seq<Rule>, r: Rule, i: nat)
    requires i < |rules|
  {
    Clashes(rules[i], r) && forall k :: 0 <= k < i ==> !Clashes(rules[k], r)
  }

  ghost predicate Vetted(rules: seq<Rule>) {
    |rules| <= PRTMAP_SIZE && forall i, j :: 0 <= i < j < |rules| ==> !Clashes(rules[i], rules[j])
  }

  class RuleTable {
    var rules: seq<Rule>                 // prt_map[0 .. curr_prt_map]

    constructor ()
      ensures rules == []
    {
      rules := [];
    }

    // add_rule
    method AddRule(r: Rule) returns (res: Added)
      requires Vetted(rules)
      modifies this
      ensures Vetted(rules)
      ensures res == Ok <==>
                |old(rules)| < PRTMAP_SIZE && forall i :: 0 <= i < |old(rules)| ==> !Clashes(old(rules)[i], r)
      ensures res == Ok <==>
                |old(rules)| < 32 && r !in old(rules)
                && forall s | s in old(rules) :: s.put != r.want || s.offset != r.offset || s.drive != r.drive
      ensures rules == if res == Ok then old(rules) + [r] else old(rules)
      ensures res == TooMany <==> |old(rules)| == PRTMAP_SIZE
      ensures res == Repeated || res == Redundant ==>
                exists i :: 0 <= i < |old(rules)| && FirstClash(old(rules), r, i)
                            && (res == Repeated <==> old(rules)[i] == r)
    {
      if |rules| == PRTMAP_SIZE {
        return TooMany;
      }
      var i := 0;
      while i < |rules|
        invariant 0 <= i <= |rules|
        invariant forall k :: 0 <= k < i ==> !Clashes(rules[k], r)
      {
        assert Clashes(rules[i], r) ==> FirstClash(rules, r, i);
        if rules[i] == r {
          return Repeated;
        }
        if SamePlace(rules[i], r) && rules[i].put == r.want {
          return Redundant;
        }
        i := i + 1;
      }
      rules := rules + [r];
      return Ok;
    }

    // do_cr_part: change the type of a primary partition, activate it or deactivate it. It gives
    // up exactly if both of the latter are wanted or add_rule turns one of the rules down.
    method ChangePartition(drive: byte, partition: nat, change: Option<TypeChange>, activate: bool, deactivate: bool)
      returns (ok: bool)
      requires 1 <= partition <= 4 && Vetted(rules) && InTable(rules)
      modifies this
      ensures Vetted(rules) && InTable(rules)
      ensures ok <==> !(activate && deactivate)
                      && Vetted(old(rules) + PartitionRules(drive, partition, change, activate, deactivate))
      ensures ok ==> rules == old(rules) + PartitionRules(drive, partition, change, activate, deactivate)
      ensures ok ==> forall t: Tables, d: byte, p: nat | EveryDrive(t) && p < 512 ::
                  Applied(t, rules)[d][p]
                  == Changed(Applied(t, old(rules))[d][p], d == drive, p, partition, change, activate, deactivate)
    {
      hide Vetted, InTable, Applied, Changed;
      forall t: Tables, d: byte, p: nat | EveryDrive(t) && p < 512 && !(activate && deactivate)
        ensures Applied(t, rules + PartitionRules(drive, partition, change, activate, deactivate))[d][p]
                == Changed(Applied(t, rules)[d][p], d == drive, p, partition, change, activate, deactivate)
      {
        RulesTakeEffect(t, rules, drive, partition, change, activate, deactivate, d, p);
      }
      ghost var before, goal := rules, PartitionRules(drive, partition, change, activate, deactivate);
      ghost var k: nat := 0;
      assert before + goal[..0] == before && before + goal[..|goal|] == before + goal;
      ok := true;
      if change.Some? {
        var r := PartitionRule(drive, partition, PART_TYPE_ENT_OFF, change.value.want, change.value.put);
        ok := AddNext(before, goal, k, r);
        if !ok { return; }
        k := k + 1;
      }
      if activate {
        ok := AddNext(before, goal, k, PartitionRule(drive, partition, PART_ACT_ENT_OFF, 0x00, 0x80));
        if !ok || deactivate { return false; }
        k := k + 1;
      }
      if deactivate {
        ok := AddNext(before, goal, k, PartitionRule(drive, partition, PART_ACT_ENT_OFF, 0x80, 0x00));
      }
    }

    // Add rule k of a series.
    method AddNext(ghost before: seq<Rule>, ghost goal: seq<Rule>, ghost k: nat, r: Rule) returns (ok: bool)
      requires k < |goal| && rules == before + goal[..k] && r == goal[k] && r.offset < 0x40
      requires Vetted(rules) && InTable(rules)
      modifies this
      ensures Vetted(rules) && InTable(rules)
      ensures if ok then rules == before + goal[..k + 1] else rules == old(rules) && !Vetted(before + goal)
    {
      hide Clashes;
      OneMoreRule(before, goal, k);
      var res := AddRule(r);
      ok := res == Ok;
    }
  }

  // A change of partition type, as named by "set": from this type to that.
  datatype TypeChange = TypeChange(want: byte, put: byte)

  // A rule about a byte of the table entry of partition 1 to 4.
  function PartitionRule(drive: byte, partition: nat, entryOffset: nat, want: byte, put: byte): (r: Rule)
    requires 1 <= partition <= 4 && entryOffset < PARTITION_ENTRY
    ensures r.offset < 0x40
  {
    Rule(drive, (partition - 1) * PARTITION_ENTRY + entryOffset, want, put)
  }

  function PartitionRules(drive: byte, partition: nat, change: Option<TypeChange>, activate: bool, deactivate: bool)
    : seq<Rule>
    requires 1 <= partition <= 4
  {
    (if change.Some? then
       [PartitionRule(drive, partition, PART_TYPE_ENT_OFF, change.value.want, change.value.put)] else [])
    + (if activate then [PartitionRule(drive, partition, PART_ACT_ENT_OFF, 0x00, 0x80)] else [])
    + (if deactivate then [PartitionRule(drive, partition, PART_ACT_ENT_OFF, 0x80, 0x00)] else [])
  }

  // Adding the next rule of a series: the whole series can only be vetted if this rule can.
  lemma OneMoreRule(before: seq<Rule>, more: seq<Rule>, k: nat)
    requires k < |more| && Vetted(before + more[..k])
    ensures before + more[..k + 1] == (before + more[..k]) + [more[k]]
    ensures var now := before + more[..k];
            (|now| < PRTMAP_SIZE && forall i :: 0 <= i < |now| ==> !Clashes(now[i], more[k]))
            <==> Vetted(now + [more[k]])
    ensures Vetted(before + more) ==> Vetted(before + more[..k + 1])
  {
    hide Clashes;
    var now, longer, all := before + more[..k], before + more[..k + 1], before + more;
    assert longer == now + [more[k]];
    assert forall i :: 0 <= i < |longer| ==> longer[i] == all[i];
    assert forall i :: 0 <= i < |now| ==> longer[i] == now[i];
    assert longer[|now|] == more[k];
  }

  // Rules about the four entries of the partition table.
  ghost predicate InTable(rules: seq<Rule>) {
    forall i :: 0 <= i < |rules| ==> rules[i].offset < 0x40
  }

  // ---------- what the rules mean ----------

  // The partition sector of every drive.
  type Tables = map<byte, Block>

  ghost predicate EveryDrive(t: Tables) {
    forall d: byte :: d in t
  }

  // The byte of the sector a rule is about: the low address byte is added without carry.
  function Place(offset: byte): (p: nat)
    ensures 0x100 <= p < 0x200
  {
    0x100 + (PART_TABLE_OFFSET % 0x100 + offset) % 0x100
  }

  function Rewrite(sector: Block, r: Rule): Block {
    if sector[Place(r.offset)] == r.want then sector[Place(r.offset) := r.put] else sector
  }

  // Each rule in order, straight to its drive.
  function Applied(t: Tables, rules: seq<Rule>): (t': Tables)
    requires EveryDrive(t)
    ensures EveryDrive(t')
  {
    if rules == [] then t
    else Applied(t[rules[0].drive := Rewrite(t[rules[0].drive], rules[0])], rules[1..])
  }

  // The list ends with a zero word, so the loader stops at the first rule for drive 0.
  function Live(rules: seq<Rule>): (live: seq<Rule>)
    ensures live <= rules && (forall i :: 0 <= i < |live| ==> live[i].drive != 0)
    ensures |live| < |rules| ==> rules[|live|].drive == 0
  {
    if rules == [] || rules[0].drive == 0 then [] else [rules[0]] + Live(rules[1..])
  }

  // ---------- the chain loader ----------

  class ChainLoader {
    const bootDrive: byte
    const readable: set<byte>            // drives whose partition sector can be read,
    const writable: set<byte>            // and written
    const low: array<byte>               // 0000:0600, for the boot drive's sector
    const scratch: array<byte>           // for other drives' sectors
    var tables: Tables                   // what is on the disks
    var cache: byte                      // drive whose sector is in memory, 0 for none
    var dirty: bool
    var buffer: array<byte>              // where it is: `low` or `scratch`

    ghost predicate Valid()
      reads this, low, scratch
    {
      && low != scratch && low.Length == scratch.Length == 512
      && (buffer == low || buffer == scratch)
      && EveryDrive(tables)
      && (!dirty && cache != 0 ==> buffer[..] == tables[cache])
    }

    // The disks as they would be after a flush.
    ghost function Effective(): Tables
      reads this, low, scratch
      requires Valid()
    {
      if cache == 0 then tables else tables[cache := buffer[..]]
    }

    constructor (bootDrive: byte, readable: set<byte>, writable: set<byte>, tables: Tables)
      requires EveryDrive(tables)
      ensures Valid() && Effective() == tables && this.tables == tables && cache == 0 && !dirty
      ensures this.bootDrive == bootDrive && this.readable == readable && this.writable == writable
      ensures fresh(low) && fresh(scratch)
    {
      this.bootDrive, this.readable, this.writable, this.tables := bootDrive, readable, writable, tables;
      low := new byte[512](_ => 0);
      scratch := new byte[512](_ => 0);
      cache, dirty := 0, false;
      new;
      buffer := low;
    }

    // flush: write the cached sector back if anything was ever changed.
    method Flush() returns (ok: bool)
      requires Valid()
      modifies this`tables
      ensures Valid() && Effective() == old(Effective()) && tables == if ok then Effective() else old(tables)
      ensures ok <==> dirty && cache != 0 ==> cache in writable
    {
      ok := true;
      if dirty && cache != 0 {
        ok := cache in writable;
        if ok {
          tables := tables[cache := buffer[..]];
        }
      } else if cache != 0 {
        assert tables[cache := buffer[..]] == tables;
      }
    }

    // Make `drive` the cached one.
    method Load(drive: byte) returns (ok: bool)
      requires Valid() && drive != 0
      modifies this`tables, this`cache, this`buffer, low, scratch
      ensures EveryDrive(tables) && (tables == old(tables) || tables == old(Effective()))
      ensures ok <==> (dirty && old(cache) != 0 ==> old(cache) in writable) && drive in readable
      ensures ok ==> Valid() && Effective() == old(Effective()) == tables && cache == drive
    {
      ok := Flush();
      if !ok { return; }
      cache := drive;
      buffer := if drive == bootDrive then low else scratch;
      ok := drive in readable;
      if ok {
        ReadInto(buffer, tables[drive]);
        assert tables[cache := buffer[..]] == tables;
      }
    }

    // incache: apply one rule to the cached sector.
    method ApplyRule(r: Rule)
      requires Valid() && cache == r.drive != 0
      modifies this`dirty, buffer
      ensures Valid() && Effective() == old(Effective())[r.drive := Rewrite(old(Effective())[r.drive], r)]
    {
      if buffer[Place(r.offset)] == r.want {
        buffer[Place(r.offset)] := r.put;
        dirty := true;
      }
    }

    // prtclp: apply the change rules. Even if a sector cannot be read or written, the disks are
    // left as some of the first rules leave them.
    method ApplyRules(rules: seq<Rule>) returns (ok: bool)
      requires Valid() && cache == 0
      modifies this, low, scratch
      ensures EveryDrive(tables)
      ensures ok ==> Valid() && tables == Applied(old(tables), Live(rules))
      ensures (forall i :: 0 <= i < |Live(rules)| ==> Live(rules)[i].drive in readable * writable) ==> ok
      ensures exists k :: 0 <= k <= |Live(rules)| && tables == Applied(old(tables), Live(rules)[..k])
    {
      hide Rewrite, Applied;
      var si := 0;
      ghost var live := Live(rules);
      ghost var flushed: nat := 0;
      NothingApplied(tables);
      while si < |rules| && rules[si].drive != 0
        invariant 0 <= si <= |live| && Valid() && flushed <= si
        invariant Effective() == Applied(old(tables), live[..si])
        invariant tables == Applied(old(tables), live[..flushed])
        invariant cache != 0 ==> exists i :: 0 <= i < si && live[i].drive == cache
      {
        var r := rules[si];
        assert si < |live| && live[si] == r;
        if r.drive != cache {
          ok := Load(r.drive);
          flushed := if tables == Applied(old(tables), live[..si]) then si else flushed;
          if !ok {
            return;
          }
        }
        OneMoreApplied(old(tables), live, si);
        ApplyRule(r);
        si := si + 1;
      }
      assert si == |live| && live[..si] == live;
      ok := Flush();
      assert ok ==> tables == Applied(old(tables), live[..si]);
    }
  }

  lemma NothingApplied(t: Tables)
    requires EveryDrive(t)
    ensures forall rules: seq<Rule> :: Applied(t, rules[..0]) == t
  {
  }

  lemma {:induction false} OneMoreApplied(t: Tables, rules: seq<Rule>, n: nat)
    requires EveryDrive(t) && n < |rules|
    ensures var before := Applied(t, rules[..n]);
            Applied(t, rules[..n + 1]) == before[rules[n].drive := Rewrite(before[rules[n].drive], rules[n])]
    decreases n
  {
    hide Rewrite;
    var r := rules[0];
    assert rules[..n + 1][1..] == rules[1..][..n];
    if n > 0 {
      OneMoreApplied(t[r.drive := Rewrite(t[r.drive], r)], rules[1..], n - 1);
      assert rules[..n][1..] == rules[1..][..n - 1];
    }
  }

  method ReadInto(a: array<byte>, block: Block)
    requires a.Length == 512
    modifies a
    ensures a[..] == block
  {
    forall i | 0 <= i < 512 { a[i] := block[i]; }
  }

  // ---------- one byte of one table ----------

  predicate About(r: Rule, drive: byte, offset: byte) {
    r.drive == drive && r.offset == offset
  }

  // The value of a byte after the rules, and how many of them changed it.
  function Final(rules: seq<Rule>, drive: byte, offset: byte, v: byte): byte {
    if rules == [] then v
    else Final(rules[1..], drive, offset,
               if About(rules[0], drive, offset) && rules[0].want == v then rules[0].put else v)
  }

  function Changes(rules: seq<Rule>, drive: byte, offset: byte, v: byte): nat {
    if rules == [] then 0
    else if About(rules[0], drive, offset) && rules[0].want == v then
      1 + Changes(rules[1..], drive, offset, rules[0].put)
    else Changes(rules[1..], drive, offset, v)
  }

  // The first rule that matches the original value decides.
  function FirstMatch(rules: seq<Rule>, drive: byte, offset: byte, v: byte): byte {
    if rules == [] then v
    else if About(rules[0], drive, offset) && rules[0].want == v then rules[0].put
    else FirstMatch(rules[1..], drive, offset, v)
  }

  lemma PlacesDiffer(a: byte, b: byte)
    requires a < 0x40 && b < 0x40
    ensures Place(a) == PART_TABLE_OFFSET + a
    ensures Place(a) == Place(b) <==> a == b
  {
  }

  lemma {:induction false} ByteAfterRules(t: Tables, rules: seq<Rule>, drive: byte, offset: byte)
    requires EveryDrive(t) && InTable(rules) && offset < 0x40
    ensures Applied(t, rules)[drive][Place(offset)] == Final(rules, drive, offset, t[drive][Place(offset)])
  {
    if rules != [] {
      var r := rules[0];
      PlacesDiffer(r.offset, offset);
      ByteAfterRules(t[r.drive := Rewrite(t[r.drive], r)], rules[1..], drive, offset);
    }
  }

  lemma {:induction false} NoMoreChanges(rules: seq<Rule>, drive: byte, offset: byte, v: byte)
    requires forall i :: 0 <= i < |rules| && About(rules[i], drive, offset) ==> rules[i].want != v
    ensures Final(rules, drive, offset, v) == v && Changes(rules, drive, offset, v) == 0
  {
    if rules != [] {
      NoMoreChanges(rules[1..], drive, offset, v);
    }
  }

  lemma {:induction false} VettedRulesSettle(rules: seq<Rule>, drive: byte, offset: byte, v: byte)
    requires Vetted(rules)
    ensures Final(rules, drive, offset, v) == FirstMatch(rules, drive, offset, v)
    ensures Changes(rules, drive, offset, v) <= 1
  {
    if rules != [] {
      var r, others := rules[0], rules[1..];
      if About(r, drive, offset) && r.want == v {
        forall i | 0 <= i < |others| && About(others[i], drive, offset)
          ensures others[i].want != r.put
        {
          assert !Clashes(rules[0], rules[i + 1]);
        }
        NoMoreChanges(others, drive, offset, r.put);
      } else {
        VettedRulesSettle(others, drive, offset, v);
      }
    }
  }

  // For rules add_rule accepted, each table byte changes at most once, to what the first rule
  // that wanted its original value puts there.
  lemma FirstRuleWins(t: Tables, rules: seq<Rule>, drive: byte, offset: byte)
    requires EveryDrive(t) && Vetted(rules) && InTable(rules) && offset < 0x40
    ensures var v := t[drive][Place(offset)];
            && Applied(t, rules)[drive][Place(offset)] == FirstMatch(rules, drive, offset, v)
            && Changes(rules, drive, offset, v) <= 1
  {
    ByteAfterRules(t, rules, drive, offset);
    VettedRulesSettle(rules, drive, offset, t[drive][Place(offset)]);
  }

  // Vetting is needed: a rule that wants what an earlier one puts makes a second change.
  lemma UnvettedRulesCascade(t: Tables, r: Rule, s: Rule)
    requires EveryDrive(t) && SamePlace(r, s) && r.put == s.want && r.offset < 0x40
    ensures Changes([r, s], r.drive, r.offset, r.want) == 2
    ensures t[r.drive][Place(r.offset)] == r.want ==> Applied(t, [r, s])[r.drive][Place(r.offset)] == s.put
  {
    var rules := [r, s];
    assert rules[1..] == [s];
    assert Final([s], r.drive, r.offset, r.put) == Final([s][1..], r.drive, r.offset, s.put);
    assert Changes([s], r.drive, r.offset, r.put) == 1 + Changes([s][1..], r.drive, r.offset, s.put);
    ByteAfterRules(t, rules, r.drive, r.offset);
  }

  // Bytes outside the partition table are never touched.
  lemma {:induction false} RestUntouched(t: Tables, rules: seq<Rule>, drive: byte, p: nat)
    requires EveryDrive(t) && InTable(rules) && p < 512 && !(PART_TABLE_OFFSET <= p < PART_TABLE_OFFSET + 0x40)
    ensures Applied(t, rules)[drive][p] == t[drive][p]
  {
    if rules != [] {
      var r := rules[0];
      PlacesDiffer(r.offset, 0);
      RestUntouched(t[r.drive := Rewrite(t[r.drive], r)], rules[1..], drive, p);
    }
  }

  // ---------- what a change of a partition does to the disks ----------

  // A byte v at position p of a partition sector, on the drive to be changed or another one. Entry
  // n of the table is at 0x1be + 16 * (n - 1); its first byte is 0x80 for the active partition, and
  // its fifth the type.
  function Changed(v: byte, there: bool, p: nat, partition: nat, change: Option<TypeChange>, activate: bool,
                   deactivate: bool): byte
    requires partition >= 1
  {
    var entry := 0x1be + 16 * (partition - 1);
    if there && p == entry then
      if activate && v == 0x00 then 0x80 else if deactivate && v == 0x80 then 0x00 else v
    else if there && p == entry + 4 then
      if change.Some? && v == change.value.want then change.value.put else v
    else v
  }

  lemma {:induction false} AppliedAppend(t: Tables, rules: seq<Rule>, more: seq<Rule>)
    requires EveryDrive(t)
    ensures Applied(t, rules + more) == Applied(Applied(t, rules), more)
  {
    hide Rewrite;
    if rules == [] {
      assert rules + more == more;
    } else {
      AppliedAppend(t[rules[0].drive := Rewrite(t[rules[0].drive], rules[0])], rules[1..], more);
      assert (rules + more)[1..] == rules[1..] + more;
    }
  }

  // One rule, applied to the entry of a partition.
  lemma OneRuleApplied(t: Tables, drive: byte, partition: nat, entryOffset: nat, want: byte, put: byte, d: byte, p: nat)
    requires EveryDrive(t) && 1 <= partition <= 4 && entryOffset < PARTITION_ENTRY && p < 512
    ensures var v := t[d][p];
            Applied(t, [PartitionRule(drive, partition, entryOffset, want, put)])[d][p]
            == if d == drive && p == 0x1be + 16 * (partition - 1) + entryOffset && v == want then put else v
  {
    var r := PartitionRule(drive, partition, entryOffset, want, put);
    PlacesDiffer(r.offset, 0);
    assert [r][1..] == [];
    var t' := t[drive := Rewrite(t[drive], r)];
    assert Applied(t, [r]) == Applied(t', []) == t';
  }

  lemma RulesTakeEffect(t: Tables, rules: seq<Rule>, drive: byte, partition: nat, change: Option<TypeChange>,
                        activate: bool, deactivate: bool, d: byte, p: nat)
    requires EveryDrive(t) && 1 <= partition <= 4 && !(activate && deactivate) && p < 512
    ensures Applied(t, rules + PartitionRules(drive, partition, change, activate, deactivate))[d][p]
            == Changed(Applied(t, rules)[d][p], d == drive, p, partition, change, activate, deactivate)
  {
    hide Applied, PartitionRule;
    var t1 := Applied(t, rules);
    var first := if change.Some? then
                   [PartitionRule(drive, partition, PART_TYPE_ENT_OFF, change.value.want, change.value.put)] else [];
    var second := if activate then [PartitionRule(drive, partition, PART_ACT_ENT_OFF, 0x00, 0x80)]
                  else if deactivate then [PartitionRule(drive, partition, PART_ACT_ENT_OFF, 0x80, 0x00)] else [];
    assert PartitionRules(drive, partition, change, activate, deactivate) == first + second;
    AppliedAppend(t, rules, first + second);
    AppliedAppend(t1, first, second);
    NothingApplied(t1);
    var t2 := Applied(t1, first);
    NothingApplied(t2);
    assert first[..0] == [] && second[..0] == [];
    if change.Some? {
      OneRuleApplied(t1, drive, partition, PART_TYPE_ENT_OFF, change.value.want, change.value.put, d, p);
    }
    if activate {
      OneRuleApplied(t2, drive, partition, PART_ACT_ENT_OFF, 0x00, 0x80, d, p);
    } else if deactivate {
      OneRuleApplied(t2, drive, partition, PART_ACT_ENT_OFF, 0x80, 0x00, d, p);
    }
  }

  // ---------- drive 0 ----------

  // The first rule for its byte and value decides; before it, no rule does.
  lemma {:induction false} FirstOfItsKind(rules: seq<Rule>, j: nat, k: nat)
    requires k <= j < |rules| && !Shadowed(rules, j)
    ensures FirstMatch(rules, rules[j].drive, rules[j].offset, rules[j].want) == rules[j].put
    ensures FirstMatch(rules[..k], rules[j].drive, rules[j].offset, rules[j].want) == rules[j].want
    decreases j
  {
    if j > 0 {
      assert !Alike(rules[0], rules[j]);
      forall i | 0 <= i < j - 1
        ensures !Alike(rules[1..][i], rules[1..][j - 1])
      {
        assert !Alike(rules[i + 1], rules[j]);
      }
      FirstOfItsKind(rules[1..], j - 1, if k > 0 then k - 1 else 0);
      assert k > 0 ==> rules[..k][1..] == rules[1..][..k - 1];
    }
  }

  predicate Alike(r: Rule, s: Rule) {
    SamePlace(r, s) && r.want == s.want
  }

  // An earlier rule takes the value this one waits for.
  predicate Shadowed(rules: seq<Rule>, j: nat)
    requires j < |rules|
  {
    exists i :: 0 <= i < j && Alike(rules[i], rules[j])
  }

  // Rule j can change a disk.
  predicate Matters(rules: seq<Rule>, j: nat)
    requires j < |rules|
  {
    rules[j].want != rules[j].put && !Shadowed(rules, j)
  }

  // Disks all of whose tables are filled with the same byte.
  function Filled(v: byte): (t: Tables)
    ensures EveryDrive(t) && forall d: byte :: t[d] == SectorFor(d, v)
  {
    map d: byte | 0 <= d < 0x100 :: SectorFor(d, v)
  }

  function SectorFor(d: byte, v: byte): Block {
    seq(512, _ => v)
  }

  lemma PrefixVetted(rules: seq<Rule>, k: nat)
    requires Vetted(rules) && InTable(rules) && k <= |rules|
    ensures Vetted(rules[..k]) && InTable(rules[..k])
  {
  }

  // A rule that matters is missed on some disks if only the rules before it are applied.
  lemma LostRule(rules: seq<Rule>, j: nat, k: nat)
    requires Vetted(rules) && InTable(rules) && k <= j < |rules| && Matters(rules, j)
    ensures Applied(Filled(rules[j].want), rules[..k]) != Applied(Filled(rules[j].want), rules)
  {
    hide Applied, FirstMatch, Changes, Shadowed;
    var r, t := rules[j], Filled(rules[j].want);
    FirstOfItsKind(rules, j, k);
    PrefixVetted(rules, k);
    FirstRuleWins(t, rules, r.drive, r.offset);
    FirstRuleWins(t, rules[..k], r.drive, r.offset);
    assert t[r.drive] == SectorFor(r.drive, r.want);
    assert Applied(t, rules[..k])[r.drive][Place(r.offset)] != Applied(t, rules)[r.drive][Place(r.offset)];
  }

  // Without such a rule nothing is lost.
  lemma {:induction false} SameFirstMatch(rules: seq<Rule>, k: nat, drive: byte, offset: byte, v: byte, n: nat)
    requires k <= n <= |rules| && forall j :: k <= j < |rules| ==> !Matters(rules, j)
    requires forall i :: 0 <= i < n ==> !(About(rules[i], drive, offset) && rules[i].want == v)
    ensures FirstMatch(rules[n..], drive, offset, v) == v
    decreases |rules| - n
  {
    hide Matters;
    if n < |rules| {
      assert rules[n..][1..] == rules[n + 1..];
      if About(rules[n], drive, offset) && rules[n].want == v {
        NothingBefore(rules, n, drive, offset, v);
      } else {
        SameFirstMatch(rules, k, drive, offset, v, n + 1);
      }
    }
  }

  lemma NothingBefore(rules: seq<Rule>, n: nat, drive: byte, offset: byte, v: byte)
    requires n < |rules| && !Matters(rules, n) && About(rules[n], drive, offset) && rules[n].want == v
    requires forall i :: 0 <= i < n ==> !(About(rules[i], drive, offset) && rules[i].want == v)
    ensures rules[n].put == v
  {
  }

  lemma {:induction false} MatchWithin(rules: seq<Rule>, k: nat, drive: byte, offset: byte, v: byte)
    requires k <= |rules|
    ensures if exists i :: 0 <= i < k && About(rules[i], drive, offset) && rules[i].want == v
            then FirstMatch(rules, drive, offset, v) == FirstMatch(rules[..k], drive, offset, v)
            else FirstMatch(rules[..k], drive, offset, v) == v
                 && FirstMatch(rules, drive, offset, v) == FirstMatch(rules[k..], drive, offset, v)
    decreases k
  {
    if k > 0 && !(About(rules[0], drive, offset) && rules[0].want == v) {
      MatchWithin(rules[1..], k - 1, drive, offset, v);
      assert rules[..k][1..] == rules[1..][..k - 1] && rules[1..][k - 1..] == rules[k..];
      assert forall i :: 0 <= i < k - 1 ==> rules[1..][i] == rules[i + 1];
    }
  }

  lemma SameMatch(rules: seq<Rule>, k: nat, drive: byte, offset: byte, v: byte)
    requires k <= |rules| && forall j :: k <= j < |rules| ==> !Matters(rules, j)
    ensures FirstMatch(rules[..k], drive, offset, v) == FirstMatch(rules, drive, offset, v)
  {
    hide FirstMatch, Matters;
    MatchWithin(rules, k, drive, offset, v);
    if forall i :: 0 <= i < k ==> !(About(rules[i], drive, offset) && rules[i].want == v) {
      SameFirstMatch(rules, k, drive, offset, v, k);
    }
  }

  lemma SameTableByte(t: Tables, rules: seq<Rule>, k: nat, drive: byte, offset: byte)
    requires EveryDrive(t) && Vetted(rules) && InTable(rules) && k <= |rules| && offset < 0x40
    requires forall j :: k <= j < |rules| ==> !Matters(rules, j)
    ensures Applied(t, rules[..k])[drive][Place(offset)] == Applied(t, rules)[drive][Place(offset)]
  {
    hide Applied, FirstMatch, Changes, Matters, Vetted, InTable, Place;
    PrefixVetted(rules, k);
    FirstRuleWins(t, rules, drive, offset);
    FirstRuleWins(t, rules[..k], drive, offset);
    SameMatch(rules, k, drive, offset, t[drive][Place(offset)]);
  }

  lemma OtherByte(t: Tables, rules: seq<Rule>, k: nat, drive: byte, p: nat)
    requires EveryDrive(t) && InTable(rules) && k <= |rules| && p < 512
    requires !(PART_TABLE_OFFSET <= p < PART_TABLE_OFFSET + 0x40)
    ensures Applied(t, rules[..k])[drive][p] == Applied(t, rules)[drive][p]
  {
    hide Applied;
    RestUntouched(t, rules, drive, p);
    RestUntouched(t, rules[..k], drive, p);
  }

  // Two partition sectors that agree in the table and elsewhere are the same.
  lemma SectorsAgree(a: Block, b: Block)
    requires forall offset: byte :: offset < 0x40 ==> a[Place(offset)] == b[Place(offset)]
    requires forall p :: 0 <= p < 512 && !(PART_TABLE_OFFSET <= p < PART_TABLE_OFFSET + 0x40) ==> a[p] == b[p]
    ensures a == b
  {
    forall p | 0 <= p < 512
      ensures a[p] == b[p]
    {
      if PART_TABLE_OFFSET <= p < PART_TABLE_OFFSET + 0x40 {
        var offset: byte := p - PART_TABLE_OFFSET;
        PlacesDiffer(offset, offset);
        assert a[Place(offset)] == b[Place(offset)];
      }
    }
  }

  lemma SameSector(t: Tables, rules: seq<Rule>, k: nat, drive: byte)
    requires EveryDrive(t) && Vetted(rules) && InTable(rules) && k <= |rules|
    requires forall j :: k <= j < |rules| ==> !Matters(rules, j)
    ensures Applied(t, rules[..k])[drive] == Applied(t, rules)[drive]
  {
    hide Applied, Matters, Vetted, InTable, Place;
    var a, b := Applied(t, rules[..k])[drive], Applied(t, rules)[drive];
    forall offset: byte | offset < 0x40
      ensures a[Place(offset)] == b[Place(offset)]
    {
      SameTableByte(t, rules, k, drive, offset);
    }
    forall p | 0 <= p < 512 && !(PART_TABLE_OFFSET <= p < PART_TABLE_OFFSET + 0x40)
      ensures a[p] == b[p]
    {
      OtherByte(t, rules, k, drive, p);
    }
    SectorsAgree(a, b);
  }

  lemma NothingLost(t: Tables, rules: seq<Rule>, k: nat)
    requires EveryDrive(t) && Vetted(rules) && InTable(rules) && k <= |rules|
    requires forall j :: k <= j < |rules| ==> !Matters(rules, j)
    ensures Applied(t, rules[..k]) == Applied(t, rules)
  {
    hide Applied, Vetted, InTable, Matters;
    var a, b := Applied(t, rules[..k]), Applied(t, rules);
    forall drive: byte
      ensures a[drive] == b[drive]
    {
      SameSector(t, rules, k, drive);
    }
    assert a == b;
  }

  // add_rule takes rules for BIOS drive 0, the first floppy, and the loader stops at such a rule.
  // It still does all that has been asked for, whatever the disks hold, exactly if none of the
  // rules it does not reach matters: each sets the byte it expects, or an earlier rule expects
  // the same byte at the same place.
  lemma AllRulesCount(rules: seq<Rule>)
    requires Vetted(rules) && InTable(rules)
    ensures (forall t: Tables | EveryDrive(t) :: Applied(t, Live(rules)) == Applied(t, rules))
            <==> forall j :: |Live(rules)| <= j < |rules| ==> !Matters(rules, j)
  {
    hide Applied, Vetted, InTable, Matters;
    var k := |Live(rules)|;
    assert Live(rules) == rules[..k];
    if j :| k <= j < |rules| && Matters(rules, j) {
      LostRule(rules, j, k);
    } else {
      forall t: Tables | EveryDrive(t)
        ensures Applied(t, Live(rules)) == Applied(t, rules)
      {
        NothingLost(t, rules, k);
      }
    }
  }
}
