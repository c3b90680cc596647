/** What the driver takes from the FAT specification, in the specification's own numbers: where the fields of a
    directory slot are, which bits say what, which names agree and which aliases are made. */
module Fat32Format {
  import opened Wrappers
  import opened Bytes
  import opened Fat32Names
  import opened Fat32Entries
  import opened Fat32Aliases
  import opened Fat32Write

  // ----- 8.3 slots -----

  /** A live slot that no long name is pending for: the cluster's low half at offset 26, its high half at 20,
      the size at 28, the attributes at 11, all words with their low byte first. */
  lemma SlotFieldsReadBack(s: Slot, cluster: u32, attr: byte, size: u32, st: ScanState)
    requires |st.buf| == 260 && attr != 0x0F && s[0] != 0 && s[0] != 0xE5
    requires s[26..28] == Enc(cluster % 0x1_0000, 2) && s[20..22] == Enc(cluster / 0x1_0000, 2)
    requires s[28..32] == Enc(size, 4) && s[11] == attr
    ensures ParseSlot(s, st) ==
      (ScanState(st.buf, false), Some(Entry(if st.lfn then CStr(st.buf) else ShortName(s), cluster, attr, size)))
  {
    TwoFields(s, cluster);
    FourBytes(s, size);
    hide CStr, ShortName, Enc, SlotCluster, SlotSize;
  }

  lemma FourBytes(s: Slot, size: u32)
    requires s[28..32] == Enc(size, 4)
    ensures SlotSize(s) == size
  {
    LittleEndian(s[28], s[29], s[30], s[31]);
    assert s[28..32] == [s[28], s[29], s[30], s[31]];
    Pow256Values();
    DecEnc(size, 4);
    hide Enc, Dec;
  }

  lemma TwoFields(s: Slot, cluster: u32)
    requires s[26..28] == Enc(cluster % 0x1_0000, 2) && s[20..22] == Enc(cluster / 0x1_0000, 2)
    ensures SlotCluster(s) == cluster
  {
    assert Pow256(2) == 0x1_0000;
    assert s[26..28] == [s[26], s[27]] && s[20..22] == [s[20], s[21]];
    TwoBytes(s[26], s[27]);
    TwoBytes(s[20], s[21]);
    DecEnc(cluster % 0x1_0000, 2);
    DecEnc(cluster / 0x1_0000, 2);
    hide Enc, Dec;
  }

  /** A slot with 0 or 0xE5 in front yields nothing. */
  lemma FreeSlotYieldsNothing(s: Slot, st: ScanState)
    requires |st.buf| == 260 && s[11] != 0x0F
    ensures ParseSlot(s, st) == (st, None) <==> s[0] == 0 || s[0] == 0xE5
    ensures IsFree(s) <==> s[0] == 0 || s[0] == 0xE5
  {
  }

  /** What writing an entry leaves in its slot. */
  lemma SlotFieldsWritten(slot: Slot, alias: seq<byte>, attr: byte, cluster: u32, size: u32)
    requires |alias| == 11
    ensures var s := EntrySlot(slot, alias, attr, cluster, size);
      && s[..11] == alias && s[11] == attr && s[12..20] == slot[12..20] && s[22..26] == slot[22..26]
      && s[26..28] == Enc(cluster % 0x1_0000, 2) && s[20..22] == Enc(cluster / 0x1_0000, 2)
      && s[28..32] == Enc(size, 4)
  {
    var s := EntrySlot(slot, alias, attr, cluster, size);
    WrittenBytes(slot, alias, attr, cluster, size);
    hide *;
    WordIsBytes(cluster);
    WordIsBytes(size);
  }

  lemma WrittenBytes(slot: Slot, alias: seq<byte>, attr: byte, cluster: u32, size: u32)
    requires |alias| == 11
    ensures var s := EntrySlot(slot, alias, attr, cluster, size);
      && s[..11] == alias && s[11] == attr && s[12..20] == slot[12..20] && s[22..26] == slot[22..26]
      && s[26..28] == [ByteOf(cluster, 0), ByteOf(cluster, 1)] && s[20..22] == [ByteOf(cluster, 2), ByteOf(cluster, 3)]
      && s[28..32] == [ByteOf(size, 0), ByteOf(size, 1), ByteOf(size, 2), ByteOf(size, 3)]
  {
    hide ByteOf;
  }

  lemma WordIsBytes(w: u32)
    ensures Enc(w % 0x1_0000, 2) == [ByteOf(w, 0), ByteOf(w, 1)]
    ensures Enc(w / 0x1_0000, 2) == [ByteOf(w, 2), ByteOf(w, 3)]
    ensures Enc(w, 4) == [ByteOf(w, 0), ByteOf(w, 1), ByteOf(w, 2), ByteOf(w, 3)]
  {
    WordSums(w);
    hide *;
    LittleEndian(ByteOf(w, 0), ByteOf(w, 1), ByteOf(w, 2), ByteOf(w, 3));
    LittleEndian(ByteOf(w, 2), ByteOf(w, 3), 0, 0);
  }

  lemma WordSums(w: u32)
    ensures ByteOf(w, 0) as int + 0x100 * ByteOf(w, 1) == w % 0x1_0000
    ensures ByteOf(w, 2) as int + 0x100 * ByteOf(w, 3) == w / 0x1_0000
    ensures ByteOf(w, 0) as int + 0x100 * ByteOf(w, 1) + 0x1_0000 * ByteOf(w, 2) + 0x100_0000 * ByteOf(w, 3) == w
  {
    var x: int := w;
    var y := x / 0x100;
    var z := y / 0x100;
    assert x == 0x100 * y + x % 0x100 && y == 0x100 * z + y % 0x100 && z == 0x100 * (z / 0x100) + z % 0x100;
    assert x == 0x1_0000 * z + (0x100 * (y % 0x100) + x % 0x100);
  }

  // ----- long-name slots -----

  /** Number `k` in the low five bits puts the 13 low bytes at `13 * (k - 1)`; bit 6 says that it is the last. */
  lemma LongSlotRead(s: Slot, st: ScanState)
    requires |st.buf| == 260 && s[11] == 0x0F && 1 <= s[0] % 32 <= 19
    ensures var (st', e) := ParseSlot(s, st); var at := 13 * (s[0] % 32 - 1);
      && e == None && st'.lfn == (st.lfn || s[0] / 64 % 2 == 1) && |st'.buf| == 260
      && st'.buf[..at] == st.buf[..at] && st'.buf[at + 14..] == st.buf[at + 14..] && st'.buf[at + 13] == 0
      && st'.buf[at..at + 13] ==
           [s[1], s[3], s[5], s[7], s[9], s[14], s[16], s[18], s[20], s[22], s[24], s[28], s[30]]
  {
    assert Chunk(s) == [s[1], s[3], s[5], s[7], s[9], s[14], s[16], s[18], s[20], s[22], s[24], s[28], s[30]];
    hide Chunk;
  }

  /** The slot written for part `e` of `n` of a name: character `13 * e + i` of it, little-endian, its terminator
      and 0xFFFF behind that, at the same places; the number and the last-slot flag; the checksum at 13. */
  lemma LongSlotWritten(name: seq<byte>, e: nat, n: nat, checksum: byte, i: nat)
    requires e < n <= 20 && i < 13
    ensures var s := LongSlot(name, e, n, checksum);
      var o := if i < 5 then 1 + 2 * i else if i < 11 then 4 + 2 * i else 6 + 2 * i;
      && s[0] as int == e + 1 + (if e + 1 == n then 64 else 0) && s[11] == 0x0F && s[12] == 0 && s[13] == checksum
      && s[26] == 0 && s[27] == 0
      && (13 * e + i < |name| ==> s[o] == name[13 * e + i] && s[o + 1] == if name[13 * e + i] < 128 then 0 else 255)
      && (13 * e + i == |name| ==> s[o] == 0 && s[o + 1] == 0)
      && (13 * e + i > |name| ==> s[o] == 255 && s[o + 1] == 255)
  {
    var s := LongSlot(name, e, n, checksum);
    var a, b, c := Units(name, 13 * e, 5), Units(name, 13 * e + 5, 6), Units(name, 13 * e + 11, 2);
    assert s[1..11] == a && s[14..26] == b && s[28..32] == c;
    hide Units;
    if i < 5 {
      assert s[1..11][2 * i] == s[1 + 2 * i] && s[1..11][2 * i + 1] == s[2 + 2 * i];
    } else if i < 11 {
      assert s[14..26][2 * (i - 5)] == s[4 + 2 * i] && s[14..26][2 * (i - 5) + 1] == s[5 + 2 * i];
    } else {
      assert s[28..32][2 * (i - 11)] == s[6 + 2 * i] && s[28..32][2 * (i - 11) + 1] == s[7 + 2 * i];
    }
  }

  /** The checksum rotates to the right: the lowest bit becomes the highest, the others move down. */
  lemma RotatesRight(sum: byte, c: byte)
    ensures Rotate(sum) / 128 == sum % 2 && Rotate(sum) % 128 == sum / 2
    ensures AddChar(sum, c) as int == (Rotate(sum) as int + c) % 256
  {
  }

  /** Each character is added to the rotated sum of those before it. */
  lemma {:induction false} ChecksumAppends(name: seq<byte>, i: nat, sum: byte, c: byte)
    requires i <= |name|
    ensures ChecksumFrom(name + [c], i, sum) == AddChar(ChecksumFrom(name, i, sum), c)
    ensures ChecksumFrom([], 0, sum) == sum
    decreases |name| - i
  {
    hide AddChar;
    if i < |name| { ChecksumAppends(name, i + 1, AddChar(sum, name[i]), c); }
  }

  // ----- names -----

  /** Names agree when they differ in the case of the letters A to Z at most. */
  lemma SameNameLetters(a: seq<byte>, b: seq<byte>)
    ensures SameName(a, b) <==> |a| == |b| && forall i :: 0 <= i < |a| ==>
      || a[i] == b[i]
      || (65 <= a[i] <= 90 && b[i] as int == a[i] as int + 32) || (65 <= b[i] <= 90 && a[i] as int == b[i] as int + 32)
  {
    if SameName(a, b) {
      assert |a| == |MapLower(a)| == |MapLower(b)| == |b|;
      forall i | 0 <= i < |a|
        ensures Lower(a[i]) == Lower(b[i])
      {
        assert MapLower(a)[i] == MapLower(b)[i];
      }
    }
  }

  /** An 8.3 slot spells its base without the spaces behind it, and a dot and its extension if there is one; bit 3
      of byte 12 makes the letters of the base small ones, bit 4 those of the extension. */
  lemma ShortNameSpells(s: Slot, b: seq<byte>, e: seq<byte>) returns (x: seq<byte>, y: seq<byte>)
    requires |b| <= 8 && |e| <= 3 && NulFree(b) && NulFree(e)
    requires (b == [] || b[|b| - 1] != 0x20) && (e == [] || e[|e| - 1] != 0x20)
    requires forall i :: 0 <= i < 8 ==> s[i] == if i < |b| then b[i] else 0x20
    requires forall i :: 8 <= i < 11 ==> s[i] == if i - 8 < |e| then e[i - 8] else 0x20
    ensures |x| == |b| && forall i :: 0 <= i < |b| ==>
      x[i] as int == b[i] as int + if s[12] / 8 % 2 == 1 && 65 <= b[i] <= 90 then 32 else 0
    ensures |y| == |e| && forall i :: 0 <= i < |e| ==>
      y[i] as int == e[i] as int + if s[12] / 16 % 2 == 1 && 65 <= e[i] <= 90 then 32 else 0
    ensures ShortName(s) == if e == [] then x else x + [0x2E] + y
  {
    var low, elow := s[12] / 8 % 2 == 1, s[12] / 16 % 2 == 1;
    assert s[..8] == Pad(b, 8) && s[8..11] == Pad(e, 3);
    ShortNameParts(s, low, elow);
    hide *;
    x, y := Cased(b, low), Cased(e, elow);
    FieldTrimmed(b, 8, low);
    FieldTrimmed(e, 3, elow);
    FieldCased(b, low);
    FieldCased(e, elow);
  }

  lemma ShortNameParts(s: Slot, low: bool, elow: bool)
    requires low == (s[12] / 8 % 2 == 1) && elow == (s[12] / 16 % 2 == 1)
    ensures var x, y := CStr(TrimSpaces(Cased(s[..8], low))), CStr(TrimSpaces(Cased(s[8..11], elow)));
      ShortName(s) == if y == [] then x else x + [0x2E] + y
  {
    hide CStr, TrimSpaces, Cased;
  }

  lemma FieldCased(s: seq<byte>, low: bool)
    ensures var x := Cased(s, low);
      |x| == |s| && forall i :: 0 <= i < |s| ==> x[i] as int == s[i] as int + if low && 65 <= s[i] <= 90 then 32 else 0
  {
  }

  lemma FieldTrimmed(s: seq<byte>, n: nat, low: bool)
    requires |s| <= n && NulFree(s) && (s == [] || s[|s| - 1] != 0x20)
    ensures CStr(TrimSpaces(Cased(Pad(s, n), low))) == Cased(s, low)
  {
    PadCased(s, n, low);
    CasedEnd(s, low);
    hide *;
    var c := Cased(s, low);
    TrimPadded(c, n);
    CStrIs(c, c);
  }

  lemma PadCased(s: seq<byte>, n: nat, low: bool)
    requires |s| <= n
    ensures Cased(Pad(s, n), low) == Pad(Cased(s, low), n)
  {
  }

  lemma CasedEnd(s: seq<byte>, low: bool)
    requires NulFree(s) && (s == [] || s[|s| - 1] != 0x20)
    ensures var c := Cased(s, low); NulFree(c) && (c == [] || c[|c| - 1] != 0x20) && c <= c
  {
  }

  lemma TrimPadded(s: seq<byte>, n: nat)
    requires |s| <= n && (s == [] || s[|s| - 1] != 0x20)
    ensures TrimSpaces(Pad(s, n)) == s
  {
    hide TrimSpaces;
    TrimPad(s, n - |s|);
  }

  /** A base, and an extension behind a dot. */
  function Dotted(b: seq<byte>, dot: bool, e: seq<byte>): seq<byte> { if dot then b + [0x2E] + e else b }

  lemma DottedParts(b: seq<byte>, dot: bool, e: seq<byte>)
    requires 0x2E !in b
    ensures Base(Dotted(b, dot, e)) == b && HasDot(Dotted(b, dot, e)) == dot
    ensures Ext(Dotted(b, dot, e)) == if dot then e else []
  {
    var name := Dotted(b, dot, e);
    var i := IndexOf(name, DOT);
    assert forall k :: 0 <= k < |b| ==> b[k] == name[k];
    assert dot ==> name[|b|] == 0x2E;
  }

  /** Long-name slots are written for a base of more than 8 characters, an extension of more than 3, and for
      every space, plus and small letter; as many as 13 characters each call for, and at most 20. */
  lemma SlotsRequired(b: seq<byte>, dot: bool, e: seq<byte>)
    requires 0x2E !in b && Dotted(b, dot, e) != []
    ensures var name := Dotted(b, dot, e); var n := RequiredSlots(name);
      && (n == 0 <==>
            && |b| <= 8 && (dot ==> |e| <= 3)
            && forall i :: 0 <= i < |name| ==> name[i] != 0x20 && name[i] != 0x2B && !(97 <= name[i] <= 122))
      && (n > 0 ==> 13 * (n - 1) < |name| && (|name| <= 13 * n || n == 20))
  {
    var name := Dotted(b, dot, e);
    DottedParts(b, dot, e);
    hide Base, Ext, IndexOf;
    assert (SPACE !in name && PLUS !in name && !AnyLower(name)) <==>
      forall i :: 0 <= i < |name| ==> name[i] != 0x20 && name[i] != 0x2B && !IsLower(name[i]);
  }

  // ----- aliases -----

  /** The characters of a base that an alias takes over. */
  lemma AliasCharacters(b: seq<byte>, dot: bool, e: seq<byte>)
    requires 0x2E !in b
    ensures FitsAlias(Dotted(b, dot, e)) <==>
      && |b| <= 8 && (dot ==> |e| <= 3)
      && forall i :: 0 <= i < |b| ==>
        65 <= b[i] <= 90 || b[i] as char in "0123456789" || b[i] as char in "$%'-_@~`!(){}^#&"
  {
    DottedParts(b, dot, e);
    hide Base, Ext, IndexOf;
    forall i | 0 <= i < |b|
      ensures b[i] as char in "0123456789" || b[i] as char in "$%'-_@~`!(){}^#&" <==> IsAliasSymbol(b[i])
    {
      AliasDigit(b[i]);
      AliasSymbol(b[i]);
    }
  }

  lemma AliasDigit(c: byte)
    ensures c as char in "0123456789" <==> 0x30 <= c <= 0x39
  {
  }

  lemma AliasSymbol(c: byte)
    ensures c as char in "$%'-_@~`!(){}^#&" <==>
      c in [0x24, 0x25, 0x27, 0x2D, 0x5F, 0x40, 0x7E, 0x60, 0x21, 0x28, 0x29, 0x7B, 0x7D, 0x5E, 0x23, 0x26]
  {
  }

  function Big(c: byte): byte { if 97 <= c <= 122 then c - 32 else c }

  /** The plain alias: both parts in capitals, filled up with spaces to 8 and 3. */
  lemma PlainAliasIs(b: seq<byte>, dot: bool, e: seq<byte>)
    requires 0x2E !in b && |b| <= 8
    ensures Base(Dotted(b, dot, e)) == b
    ensures var a := PlainAlias(Dotted(b, dot, e));
      && (forall i :: 0 <= i < 8 ==> a[i] == if i < |b| then Big(b[i]) else 0x20)
      && (forall i :: 8 <= i < 11 ==> a[i] == if dot && i - 8 < |e| then Big(e[i - 8]) else 0x20)
  {
    DottedParts(b, dot, e);
    hide Base, Ext, IndexOf, Dotted;
  }

  /** Those 11 bytes of a base without small letters. */
  function PlainBytes(b: seq<byte>, dot: bool, e: seq<byte>): (a: seq<byte>)
    requires |b| <= 8
    ensures |a| == 11
  {
    seq(11, i requires 0 <= i < 11 => if i < |b| then b[i] else if 8 <= i && dot && i - 8 < |e| then e[i - 8] else 0x20)
  }

  /** The value of decimal digits. */
  function Decimal(d: seq<byte>): int { if d == [] then 0 else 10 * Decimal(d[..|d| - 1]) + (d[|d| - 1] as int - 48) }

  lemma {:induction false} DigitsSpell(n: nat)
    ensures Decimal(Digits(n)) == n && (n > 0 ==> Digits(n)[0] != 48)
    ensures forall i :: 0 <= i < |Digits(n)| ==> 48 <= Digits(n)[i] <= 57
  {
    if n >= 10 {
      DigitsSpell(n / 10);
      assert Digits(n)[..|Digits(n)| - 1] == Digits(n / 10);
    } else {
      assert Digits(n)[..0] == [];
    }
  }

  /** A numbered alias: as much of the base as leaves room for "~" and the digits in front of the extension. */
  lemma NumberedAliasIs(b: seq<byte>, dot: bool, e: seq<byte>, n: nat)
    requires 0x2E !in b && |b| <= 11 && 1 <= n < 1_000_000
    ensures Base(Dotted(b, dot, e)) == b && |Digits(n)| <= 6
    ensures var a, d := NumberedAlias(Dotted(b, dot, e), n), Digits(n); var k := Min(|b|, 7 - |d|);
      forall i :: 0 <= i < 11 ==>
        a[i] == if i < k then Big(b[i])
                else if i == k then 0x7E
                else if i <= k + |d| then d[i - k - 1]
                else if 8 <= i && dot && i - 8 < |e| then Big(e[i - 8])
                else if i < |b| then Big(b[i]) else 0x20
  {
    DottedParts(b, dot, e);
    DigitsFit(n);
    var name, d := Dotted(b, dot, e), Digits(n);
    var k := Min(|b|, 7 - |d|);
    hide Base, Ext, IndexOf, Dotted, Digits, Splice;
    AliasTail(Pad(MapUpper(b), 11), k, [TILDE] + d, AliasExt(name));
  }

  lemma AliasTail(s: seq<byte>, k: nat, d: seq<byte>, e: seq<byte>)
    requires |s| == 11 && k + |d| <= 8 && |e| <= 3
    ensures var a := Splice(Splice(s, k, d), 8, e);
      && |a| == 11 && forall i :: 0 <= i < 11 ==>
        a[i] == if i < k then s[i] else if i < k + |d| then d[i - k] else if 8 <= i < 8 + |e| then e[i - 8] else s[i]
  {
  }

  /** All numbers from `n` to before `m` give aliases that some slot carries. */
  ghost predicate AllTaken(slots: seq<Slot>, name: seq<byte>, n: nat, m: nat)
    requires |Base(name)| <= 11 && 1 <= n && m <= 1_000_000
  {
    forall j :: n <= j < m ==> Taken(slots, NumberedAlias(name, j))
  }

  lemma {:induction false} LowestNumbered(slots: seq<Slot>, name: seq<byte>, n: nat) returns (m: nat)
    requires |Base(name)| <= 11 && 1 <= n <= 1_000_000
    ensures n <= m <= 1_000_000 && AllTaken(slots, name, n, m)
    ensures m < 1_000_000 ==> !Taken(slots, NumberedAlias(name, m))
    ensures FirstNumbered(slots, name, n) == if m < 1_000_000 then Some(NumberedAlias(name, m)) else None
    decreases 1_000_000 - n
  {
    hide NumberedAlias, Taken, Base;
    m := n;
    if n < 1_000_000 && Taken(slots, NumberedAlias(name, n)) { m := LowestNumbered(slots, name, n + 1); }
  }

  /** The alias chosen: the plain one if it can be made and no slot carries it, else the first numbered one that
      no slot carries, else none. */
  lemma AliasChosen(slots: seq<Slot>, b: seq<byte>, dot: bool, e: seq<byte>) returns (m: nat)
    requires 0x2E !in b && |b| <= 11 && Dotted(b, dot, e) != []
    ensures Base(Dotted(b, dot, e)) == b
    ensures var name := Dotted(b, dot, e);
      if |b| <= 8 && (dot ==> |e| <= 3)
        && (forall i :: 0 <= i < |b| ==>
              65 <= b[i] <= 90 || b[i] as char in "0123456789" || b[i] as char in "$%'-_@~`!(){}^#&")
        && !exists s :: s in slots && s[..11] == PlainAlias(name)
      then AliasFor(slots, name) == Some(PlainAlias(name))
      else
        && 1 <= m <= 1_000_000 && AllTaken(slots, name, 1, m)
        && (m == 1_000_000 ==> AliasFor(slots, name) == None)
        && (m < 1_000_000 ==>
              && AliasFor(slots, name) == Some(NumberedAlias(name, m))
              && !exists s :: s in slots && s[..11] == NumberedAlias(name, m))
  {
    var name := Dotted(b, dot, e);
    DottedParts(b, dot, e);
    AliasCharacters(b, dot, e);
    if |b| <= 8 { TakenBy(slots, PlainAlias(name)); }
    m := LowestNumbered(slots, name, 1);
    if m < 1_000_000 { TakenBy(slots, NumberedAlias(name, m)); }
    hide Base, FitsAlias, PlainAlias, NumberedAlias, Taken, FirstNumbered, Dotted, AllTaken;
  }

  lemma TakenBy(slots: seq<Slot>, alias: seq<byte>)
    ensures Taken(slots, alias) <==> exists s :: s in slots && s[..11] == alias
  {
  }

  // ----- names that are found again -----

  /** A name of 1 to 8 of the characters that aliases take over, and an extension of 1 to 3 characters, none of
      them a small letter, or none and no dot, is found again where no slot carries its alias. */
  lemma PlainNameKept(slots: seq<Slot>, b: seq<byte>, dot: bool, e: seq<byte>)
    requires 1 <= |b| <= 8 && |e| <= 3 && (dot ==> e != []) && forall i :: 0 <= i < |b| ==>
      65 <= b[i] <= 90 || b[i] as char in "0123456789" || b[i] as char in "$%'-_@~`!(){}^#&"
    requires (forall i :: 0 <= i < |e| ==> !(97 <= e[i] <= 122)) && forall s :: s in slots ==>
      s[..11] != PlainBytes(b, dot, e)
    ensures FoundAgain(slots, Dotted(b, dot, e))
  {
    var name := Dotted(b, dot, e);
    NoDotInBase(b);
    DottedParts(b, dot, e);
    AliasCharacters(b, dot, e);
    PlainAliasIs(b, dot, e);
    assert PlainAlias(name) == PlainBytes(b, dot, e);
    TakenBy(slots, PlainAlias(name));
    hide Dotted, PlainAlias, PlainBytes, Base, Ext, IndexOf, FitsAlias, FirstNumbered, Taken;
  }

  lemma NoDotInBase(b: seq<byte>)
    requires forall i :: 0 <= i < |b| ==>
      65 <= b[i] <= 90 || b[i] as char in "0123456789" || b[i] as char in "$%'-_@~`!(){}^#&"
    ensures 0x2E !in b && forall i :: 0 <= i < |b| ==> Big(b[i]) == b[i]
  {
    forall i | 0 <= i < |b|
      ensures b[i] != 0x2E && Big(b[i]) == b[i]
    {
      AliasDigit(b[i]);
      AliasSymbol(b[i]);
    }
  }
}
