/** Directory entries: 8.3 aliases, the slots written for a new entry, and what
    writing or deleting an entry does to a scan of its directory. */
module Fat32Entries {
  import opened Wrappers
  import opened Bytes
  import opened Fat32Names
  import opened Fat32Scan

  // ----- name parts -----

  function IndexOf(s: seq<byte>, c: byte): (i: nat)
    ensures i <= |s|
    ensures i < |s| ==> s[i] == c
    ensures forall k :: 0 <= k < i ==> s[k] != c
  {
    if s == [] || s[0] == c then 0 else 1 + IndexOf(s[1..], c)
  }

  predicate HasDot(name: seq<byte>) { IndexOf(name, DOT) < |name| }

  function Base(name: seq<byte>): seq<byte> { name[..IndexOf(name, DOT)] }

  function Ext(name: seq<byte>): seq<byte> {
    if HasDot(name) then name[IndexOf(name, DOT) + 1..] else []
  }

  predicate IsUpper(c: byte) { 0x41 <= c <= 0x5A }

  predicate IsLower(c: byte) { 0x61 <= c <= 0x7A }

  predicate AnyUpper(s: seq<byte>) { exists i :: 0 <= i < |s| && IsUpper(s[i]) }

  predicate AnyLower(s: seq<byte>) { exists i :: 0 <= i < |s| && IsLower(s[i]) }

  /** Names for which no long-name slots are written. */
  predicate IsShort(name: seq<byte>) {
    |Base(name)| <= 8 && |Ext(name)| <= 3 && SPACE !in name && PLUS !in name && !AnyLower(name)
  }

  /** `getRequiredLFNEntries`. */
  function RequiredSlots(name: seq<byte>): (n: nat)
    ensures n <= 20
  {
    if name == [] || IsShort(name) then 0 else Min(20, LongSlotCount(|name|))
  }

  // ----- aliases -----

  function Pad(s: seq<byte>, n: nat): (r: seq<byte>)
    requires |s| <= n
    ensures |r| == n
  {
    s + seq(n - |s|, i => SPACE)
  }

  /** The characters, besides capitals, that an alias takes over: digits and $%'-_@~`!(){}^#&. */
  predicate IsAliasSymbol(c: byte) {
    0x30 <= c <= 0x39 || c in [0x24, 0x25, 0x27, 0x2D, 0x5F, 0x40, 0x7E, 0x60, 0x21, 0x28, 0x29, 0x7B, 0x7D, 0x5E,
        0x23, 0x26]
  }

  predicate FitsAlias(name: seq<byte>) {
    && |Base(name)| <= 8 && |Ext(name)| <= 3
    && forall i :: 0 <= i < |Base(name)| ==> IsUpper(Base(name)[i]) || IsAliasSymbol(Base(name)[i])
  }

  function AliasExt(name: seq<byte>): (r: seq<byte>)
    ensures |r| <= 3
  {
    MapUpper(Ext(name)[..Min(3, |Ext(name)|)])
  }

  function PlainAlias(name: seq<byte>): (a: seq<byte>)
    requires |Base(name)| <= 8
    ensures |a| == 11
  {
    Pad(MapUpper(Base(name)), 8) + Pad(AliasExt(name), 3)
  }

  function Digits(n: nat): (d: seq<byte>)
    ensures |d| >= 1
    ensures n < 10 ==> |d| == 1
    ensures 10 <= n ==> |d| == 1 + |Digits(n / 10)|
  {
    if n < 10 then [0x30 + n] else Digits(n / 10) + [0x30 + n % 10]
  }

  lemma DigitsFit(n: nat)
    requires n < 1_000_000
    ensures |Digits(n)| <= 6
  {
    assert n < 10 || |Digits(n)| == 1 + |Digits(n / 10)|;
    assert n / 10 < 10 || |Digits(n / 10)| == 1 + |Digits(n / 10 / 10)|;
    assert n / 10 / 10 < 10 || |Digits(n / 10 / 10)| == 1 + |Digits(n / 10 / 10 / 10)|;
    assert n / 10 / 10 / 10 < 10 || |Digits(n / 10 / 10 / 10)| == 1 + |Digits(n / 10 / 10 / 10 / 10)|;
    assert n / 10 / 10 / 10 / 10 < 10 || |Digits(n / 10 / 10 / 10 / 10)| == 1 + |Digits(n / 10 / 10 / 10 / 10 / 10)|;
  }

  /** The alias with a numeric tail. A base of 9 to 11 bytes spills over the extension field. */
  function NumberedAlias(name: seq<byte>, n: nat): (a: seq<byte>)
    requires |Base(name)| <= 11 && 1 <= n < 1_000_000
    ensures |a| == 11
  {
    DigitsFit(n);
    var d := Digits(n);
    var copyLen := Min(|Base(name)|, 8 - |d| - 1);
    Splice(Splice(Pad(MapUpper(Base(name)), 11), copyLen, [TILDE] + d), 8, AliasExt(name))
  }

  /** Whether some slot, of whatever kind, starts with these 11 bytes. */
  predicate Taken(slots: seq<Slot>, alias: seq<byte>)
  {
    exists i :: 0 <= i < |slots| && slots[i][..11] == alias
  }

  function FirstNumbered(slots: seq<Slot>, name: seq<byte>, n: nat): (a: Option<seq<byte>>)
    requires |Base(name)| <= 11 && 1 <= n <= 1_000_000
    ensures a.Some? ==> |a.value| == 11
    decreases 1_000_000 - n
  {
    if n == 1_000_000 then None
    else if !Taken(slots, NumberedAlias(name, n)) then Some(NumberedAlias(name, n))
    else FirstNumbered(slots, name, n + 1)
  }

  /** `get83Name`. */
  function AliasFor(slots: seq<Slot>, name: seq<byte>): (a: Option<seq<byte>>)
    requires |Base(name)| <= 11
    ensures a.Some? ==> |a.value| == 11
  {
    if name == [] then Some([0] + seq(10, i => SPACE))
    else if FitsAlias(name) && !Taken(slots, PlainAlias(name)) then Some(PlainAlias(name))
    else FirstNumbered(slots, name, 1)
  }

  lemma {:induction false} FirstNumberedIsFree(slots: seq<Slot>, name: seq<byte>, n: nat)
    requires |Base(name)| <= 11 && 1 <= n <= 1_000_000 && name != [] && name[0] != DELETED && name[0] != 0
    ensures var a := FirstNumbered(slots, name, n);
      a.Some? ==> !Taken(slots, a.value) && a.value[0] != 0 && a.value[0] != DELETED
    decreases 1_000_000 - n
  {
    if n < 1_000_000 {
      if Taken(slots, NumberedAlias(name, n)) {
        FirstNumberedIsFree(slots, name, n + 1);
      } else {
        DigitsFit(n);
        var a := NumberedAlias(name, n);
        if Base(name) != [] { assert a[0] == Upper(name[0]); } else { assert a[0] == TILDE; }
      }
    }
  }

  /** An alias is new in its directory and does not make the slot look free. */
  lemma AliasIsNew(slots: seq<Slot>, name: seq<byte>)
    requires |Base(name)| <= 11 && name != [] && name[0] != DELETED && name[0] != 0
    ensures var a := AliasFor(slots, name);
      a.Some? ==> !Taken(slots, a.value) && a.value[0] != 0 && a.value[0] != DELETED
  {
    if FitsAlias(name) && !Taken(slots, PlainAlias(name)) {
      var a := PlainAlias(name);
      if Base(name) != [] { assert a[0] == Upper(name[0]); } else { assert a[0] == SPACE; }
    } else {
      FirstNumberedIsFree(slots, name, 1);
    }
  }

  // ----- the 8.3 slot -----

  function ByteOf(w: u32, i: nat): byte
    requires i < 4
  {
    if i == 0 then w % 0x100 else if i == 1 then w / 0x100 % 0x100
    else if i == 2 then w / 0x100 / 0x100 % 0x100 else w / 0x100 / 0x100 / 0x100
  }

  /** The fields `writeFAT32Entry` stores in a slot; all other bytes stay as they were. */
  function EntrySlot(slot: Slot, alias: seq<byte>, attr: byte, cluster: u32, size: u32): Slot
    requires |alias| == 11
  {
    alias + [attr] + slot[12..20]
    + [ByteOf(cluster, 2), ByteOf(cluster, 3)] + slot[22..26]
    + [ByteOf(cluster, 0), ByteOf(cluster, 1)]
    + [ByteOf(size, 0), ByteOf(size, 1), ByteOf(size, 2), ByteOf(size, 3)]
  }

  lemma EntrySlotFields(slot: Slot, alias: seq<byte>, attr: byte, cluster: u32, size: u32)
    requires |alias| == 11
    ensures var s := EntrySlot(slot, alias, attr, cluster, size);
      && SlotCluster(s) == cluster && SlotSize(s) == size && s[11] == attr && s[..11] == alias && s[12] == slot[12]
  {
    var s := EntrySlot(slot, alias, attr, cluster, size);
    assert s[20] == ByteOf(cluster, 2) && s[21] == ByteOf(cluster, 3);
    assert s[26] == ByteOf(cluster, 0) && s[27] == ByteOf(cluster, 1);
    assert s[28] == ByteOf(size, 0) && s[29] == ByteOf(size, 1) && s[30] == ByteOf(size, 2) && s[31] == ByteOf(size, 3);
    WordBytes(cluster);
    WordBytes(size);
  }

  lemma WordBytes(w: u32)
    ensures Word(ByteOf(w, 0), ByteOf(w, 1), ByteOf(w, 2), ByteOf(w, 3)) == w
  {
  }

  // ----- names of 8.3 slots -----

  lemma {:induction false} TrimPad(s: seq<byte>, k: nat)
    requires s == [] || s[|s| - 1] != SPACE
    ensures TrimSpaces(s + seq(k, i => SPACE)) == s
    decreases k
  {
    var t := s + seq(k, i => SPACE);
    if k > 0 {
      assert t[..|t| - 1] == s + seq(k - 1, i => SPACE);
      TrimPad(s, k - 1);
    } else {
      assert t == s;
    }
  }

  lemma FieldSpells(s: seq<byte>, n: nat, low: bool)
    requires |s| <= n && NulFree(s) && SPACE !in s
    ensures CStr(TrimSpaces(Cased(Pad(s, n), low))) == Cased(s, low)
  {
    hide CStr, TrimSpaces;
    var c := Cased(s, low);
    assert Cased(Pad(s, n), low) == c + seq(n - |s|, i => SPACE);
    if c != [] { assert s[|s| - 1] in s && c[|c| - 1] != SPACE; }
    TrimPad(c, n - |s|);
    CStrIs(c, c);
  }

  lemma CasedIsSame(s: seq<byte>, low: bool)
    ensures Cased(s, low) == s <==> !(low && AnyUpper(s))
  {
    if low {
      if AnyUpper(s) {
        var i :| 0 <= i < |s| && IsUpper(s[i]);
        assert MapLower(s)[i] != s[i];
      } else {
        assert MapLower(s) == s;
      }
    }
  }

  lemma NoLowerIsUpper(s: seq<byte>)
    requires !AnyLower(s)
    ensures MapUpper(s) == s
  {
    forall i | 0 <= i < |s|
      ensures Upper(s[i]) == s[i]
    {
      assert !IsLower(s[i]);
    }
  }

  /** A name written without long-name slots under its own alias reads back as itself
      exactly when no extension is missing behind a dot and no case flag left in the
      slot applies to one of its capitals. */
  lemma ShortNameRoundTrip(name: seq<byte>, s: Slot)
    requires NulFree(name) && IsShort(name) && s[..11] == PlainAlias(name)
    ensures ShortName(s) == name <==>
      && (HasDot(name) ==> Ext(name) != [])
      && !(BaseLow(s) && AnyUpper(Base(name)))
      && !(ExtLow(s) && AnyUpper(Ext(name)))
  {
    var b, e := Base(name), Ext(name);
    assert forall i :: 0 <= i < |b| ==> b[i] == name[i];
    assert forall i :: 0 <= i < |e| ==> e[i] == name[|b| + 1 + i];
    assert NulFree(b) && NulFree(e) && SPACE !in b && SPACE !in e && !AnyLower(b) && !AnyLower(e);
    NoLowerIsUpper(b);
    NoLowerIsUpper(e);
    assert AliasExt(name) == e;
    assert s[..8] == s[..11][..8] == Pad(b, 8);
    assert s[8..11] == s[..11][8..] == Pad(e, 3);
    FieldSpells(b, 8, BaseLow(s));
    FieldSpells(e, 3, ExtLow(s));
    CasedIsSame(b, BaseLow(s));
    CasedIsSame(e, ExtLow(s));
    SplitName(name, Cased(b, BaseLow(s)), Cased(e, ExtLow(s)));
  }

  lemma SplitName(name: seq<byte>, b: seq<byte>, e: seq<byte>)
    requires |b| == |Base(name)| && |e| == |Ext(name)|
    ensures (if e == [] then b else b + [DOT] + e) == name <==>
      b == Base(name) && e == Ext(name) && (HasDot(name) ==> e != [])
  {
    var i := IndexOf(name, DOT);
    if HasDot(name) {
      assert name == Base(name) + [DOT] + Ext(name);
      var t := b + [DOT] + e;
      assert t[..i] == b && t[i + 1..] == e;
    } else {
      assert name == Base(name);
    }
  }

  // ----- a new entry -----

  /** The slots written for a new entry: its long-name slots, then its 8.3 slot. */
  function NewSlots(name: seq<byte>, n: nat, checksum: byte, short: Slot): (ss: seq<Slot>)
    requires n <= 20
    ensures |ss| == n + 1
  {
    LongSlots(name, n, checksum) + [short]
  }

  lemma NewSlotsScan(name: seq<byte>, checksum: byte, short: Slot, st: ScanState, idx: nat)
    requires |st.buf| == LFN_BUFFER && !st.lfn && NulFree(name) && 1 <= |name| <= 247 && IsLive(short)
    ensures var n := RequiredSlots(name); var ss := NewSlots(name, n, checksum, short);
      && CleanDir(ss) && AllFit(ss)
      && Scan(ss, st, idx) ==
         [(idx + n, Entry(if n > 0 then name else ShortName(short), SlotCluster(short), short[11], SlotSize(short)))]
  {
    hide Scan, ScanEnd, GoodRun, LongSlot, ShortName, CStr, SlotCluster, SlotSize, IsShort;
    var n := RequiredSlots(name);
    var run := LongSlots(name, n, checksum);
    if n > 0 {
      LongNameRoundTrip(name, checksum, st, idx);
      assert GoodRun(run);
    }
    GoodRunIsLong(run);
    RunThenLive(run, short, [], st, idx);
    CleanBuild(run, short, []);
    assert run + [short] + [] == run + [short];
    ScanNothing(ScanState(ScanEnd(run, st).buf, false), idx + n + 1);
    if n == 0 { ScanNothing(st, idx); assert run == []; }
  }

  lemma GoodRunIsLong(run: seq<Slot>)
    requires run == [] || GoodRun(run)
    ensures AllFit(run) && forall i :: 0 <= i < |run| ==> IsLong(run[i])
  {
  }

  lemma ScanNothing(st: ScanState, idx: nat)
    requires |st.buf| == LFN_BUFFER
    ensures Scan([], st, idx) == [] && ScanEnd([], st) == st && CleanDir([]) && !AnyLast([])
  {
  }

  ghost predicate AllFree(slots: seq<Slot>)
  {
    forall i :: 0 <= i < |slots| ==> IsFree(slots[i])
  }

  lemma {:induction false} LongIsNotFree(slots: seq<Slot>, i: nat)
    requires CleanDir(slots) && i < |slots| && IsLong(slots[i])
    ensures !IsFree(slots[i])
    decreases |slots|
  {
    var k := RunLength(slots);
    if i < k {
      assert slots[i] == slots[..k][i];
      assert FitsBuffer(slots[..k][i]) && slots[..k][i][0] != DELETED;
    } else if i > k {
      assert slots[i] == slots[k + 1..][i - k - 1];
      LongIsNotFree(slots[k + 1..], i - k - 1);
    }
  }

  lemma {:induction false} FreeSlotsAreSilent(free: seq<Slot>, st: ScanState, idx: nat)
    requires |st.buf| == LFN_BUFFER && AllFree(free) && forall i :: 0 <= i < |free| ==> !IsLong(free[i])
    ensures AllFit(free) && Scan(free, st, idx) == [] && ScanEnd(free, st) == st
  {
    if free != [] { FreeSlotsAreSilent(free[1..], st, idx + 1); }
  }

  lemma {:induction false} CleanDropFree(free: seq<Slot>, rest: seq<Slot>)
    requires CleanDir(free + rest) && forall i :: 0 <= i < |free| ==> !IsLong(free[i])
    ensures CleanDir(rest)
  {
    if free == [] {
      assert free + rest == rest;
    } else {
      assert (free + rest)[1..] == free[1..] + rest;
      CleanDropFree(free[1..], rest);
    }
  }

  /** Overwriting free slots of a well-formed directory by slots that yield one entry
      adds that entry in its place and changes no other. */
  lemma InsertScan(pre: seq<Slot>, free: seq<Slot>, post: seq<Slot>, mid: seq<Slot>, st: ScanState,
                   found: seq<(nat, Entry)>)
    requires |st.buf| == LFN_BUFFER && !st.lfn && |mid| == |free| > 0
    requires CleanDir(pre + free + post) && AllFree(free) && CleanDir(mid) && AllFit(mid)
    requires forall s: ScanState :: |s.buf| == LFN_BUFFER && !s.lfn ==> Scan(mid, s, |pre|) == found
    ensures CleanDir(pre + mid + post) && AllFit(pre) && AllFit(post)
    ensures AllFit(pre + free + post) && AllFit(pre + mid + post)
    ensures Scan(pre + free + post, st, 0) == Scan(pre, st, 0) + Scan(post, st, |pre| + |mid|)
    ensures Scan(pre + mid + post, st, 0) == Scan(pre, st, 0) + found + Scan(post, st, |pre| + |mid|)
  {
    InsertClean(pre, free, post, mid);
    hide *;
    CleanFits(pre);
    CleanFits(post);
    var s1 := ScanEnd(pre, st);
    ScanIgnoresStale(pre, st, st, 0);
    var s2 := ScanEnd(mid, s1);
    ScanIgnoresStale(mid, s1, s1, |pre|);
    FreeSlotsAreSilent(free, s1, |pre|);
    ScanThree(pre, free, post, st);
    ScanThree(pre, mid, post, st);
    ScanIgnoresStale(post, s1, st, |pre| + |mid|);
    ScanIgnoresStale(post, s2, st, |pre| + |mid|);
    assert Scan(mid, s1, |pre|) == found;
  }

  lemma ScanThree(a: seq<Slot>, b: seq<Slot>, c: seq<Slot>, st: ScanState)
    requires |st.buf| == LFN_BUFFER && AllFit(a) && AllFit(b) && AllFit(c)
    ensures AllFit(a + b + c)
    ensures Scan(a + b + c, st, 0) ==
      Scan(a, st, 0) + Scan(b, ScanEnd(a, st), |a|) + Scan(c, ScanEnd(b, ScanEnd(a, st)), |a| + |b|)
  {
    ScanAppend(a, b, st, 0);
    ScanAppend(a + b, c, st, 0);
  }

  lemma InsertClean(pre: seq<Slot>, free: seq<Slot>, post: seq<Slot>, mid: seq<Slot>)
    requires |free| > 0 && CleanDir(pre + free + post) && AllFree(free) && CleanDir(mid)
    ensures CleanDir(pre) && CleanDir(post) && CleanDir(pre + mid + post)
    ensures forall i :: 0 <= i < |free| ==> !IsLong(free[i])
  {
    hide *;
    FreeAreNotLong(pre, free, post);
    SplitThree(pre, free, post);
    CleanSplit(pre + free + post, |pre|);
    CleanDropFree(free, post);
    CleanAppend(pre, mid);
    CleanAppend(pre + mid, post);
  }

  lemma SplitThree(pre: seq<Slot>, free: seq<Slot>, post: seq<Slot>)
    requires |free| > 0 && AllFree(free)
    requires forall i :: 0 <= i < |free| ==> !IsLong(free[i])
    ensures var all := pre + free + post;
      && all[..|pre|] == pre && all[|pre|..] == free + post
      && |pre| < |all| && IsFree(all[|pre|]) && !IsLong(all[|pre|])
  {
    assert (pre + free + post)[|pre|] == free[0];
  }

  lemma FreeAreNotLong(pre: seq<Slot>, free: seq<Slot>, post: seq<Slot>)
    requires CleanDir(pre + free + post) && AllFree(free)
    ensures forall i :: 0 <= i < |free| ==> !IsLong(free[i])
  {
    hide CleanDir;
    forall i | 0 <= i < |free|
      ensures !IsLong(free[i])
    {
      assert (pre + free + post)[|pre| + i] == free[i];
      if IsLong(free[i]) { LongIsNotFree(pre + free + post, |pre| + i); }
    }
  }
}
