/** Which names survive without long-name slots: what an alias spells, and when it spells
    the name it was made for. */
module Fat32Aliases {
  import opened Wrappers
  import opened Bytes
  import opened Fat32Names
  import opened Fat32Entries

  // ----- what an alias spells -----

  /** What the 11 bytes of an alias spell when no case flag is set. */
  function Spelled(alias: seq<byte>): seq<byte>
    requires |alias| == 11
  {
    var base, ext := CStr(TrimSpaces(alias[..8])), CStr(TrimSpaces(alias[8..]));
    if ext == [] then base else base + [DOT] + ext
  }

  lemma {:induction false} TrimLower(s: seq<byte>)
    ensures TrimSpaces(MapLower(s)) == MapLower(TrimSpaces(s))
  {
    if s != [] && s[|s| - 1] == SPACE {
      assert MapLower(s)[..|s| - 1] == MapLower(s[..|s| - 1]);
      TrimLower(s[..|s| - 1]);
    }
  }

  lemma {:induction false} CStrLower(s: seq<byte>)
    ensures CStr(MapLower(s)) == MapLower(CStr(s))
  {
    if s != [] && s[0] != 0 {
      assert MapLower(s)[1..] == MapLower(s[1..]);
      CStrLower(s[1..]);
      assert MapLower(CStr(s)) == [Lower(s[0])] + MapLower(CStr(s[1..]));
    }
  }

  lemma CasedField(s: seq<byte>, low: bool)
    ensures CStr(TrimSpaces(Cased(s, low))) == Cased(CStr(TrimSpaces(s)), low)
  {
    TrimLower(s);
    CStrLower(TrimSpaces(s));
  }

  lemma CasedIsSameName(s: seq<byte>, low: bool)
    ensures SameName(Cased(s, low), s)
  {
  }

  lemma SameParts(a: seq<byte>, b: seq<byte>, c: seq<byte>, d: seq<byte>)
    requires SameName(a, c) && SameName(b, d)
    ensures SameName(a + [DOT] + b, c + [DOT] + d)
  {
    forall i | 0 <= i < |a| + 1 + |b|
      ensures Lower((a + [DOT] + b)[i]) == Lower((c + [DOT] + d)[i])
    {
      assert MapLower(a)[..] == MapLower(c) && MapLower(b)[..] == MapLower(d);
      if i < |a| { assert MapLower(a)[i] == MapLower(c)[i]; }
      if i > |a| { assert MapLower(b)[i - |a| - 1] == MapLower(d)[i - |a| - 1]; }
    }
  }

  /** Case flags change nothing but case. */
  lemma SpellsAlias(s: Slot)
    ensures SameName(ShortName(s), Spelled(s[..11]))
  {
    hide CStr, TrimSpaces, Cased;
    assert s[..11][..8] == s[..8] && s[..11][8..] == s[8..11];
    CasedField(s[..8], BaseLow(s));
    CasedField(s[8..11], ExtLow(s));
    var b, e := CStr(TrimSpaces(s[..8])), CStr(TrimSpaces(s[8..11]));
    CasedIsSameName(b, BaseLow(s));
    CasedIsSameName(e, ExtLow(s));
    SameParts(Cased(b, BaseLow(s)), Cased(e, ExtLow(s)), b, e);
    assert |Cased(e, ExtLow(s))| == |MapLower(Cased(e, ExtLow(s)))| == |e|;
  }

  // ----- what aliases of short names look like -----

  predicate IsAliasByte(c: byte) { c != 0 && c != DOT && !IsLower(c) }

  /** No terminator, no dot, no small letter. */
  predicate AliasBytes(s: seq<byte>) { forall i :: 0 <= i < |s| ==> IsAliasByte(s[i]) }

  lemma {:induction false} DigitsAreAliasBytes(n: nat)
    ensures AliasBytes(Digits(n))
  {
    if n >= 10 { DigitsAreAliasBytes(n / 10); }
  }

  lemma ShortParts(name: seq<byte>)
    requires IsShort(name) && NulFree(name)
    ensures AliasBytes(Base(name)) && NulFree(Ext(name)) && SPACE !in Base(name) && SPACE !in Ext(name)
    ensures MapUpper(Base(name)) == Base(name) && AliasExt(name) == Ext(name) && |Ext(name)| <= 3
  {
    var b, e := Base(name), Ext(name);
    assert forall i :: 0 <= i < |b| ==> b[i] == name[i];
    assert forall i :: 0 <= i < |e| ==> e[i] == name[|b| + 1 + i];
    assert !AnyLower(b) && !AnyLower(e);
    forall i | 0 <= i < |b|
      ensures IsAliasByte(b[i])
    {
      assert !IsLower(name[i]);
    }
    NoLowerIsUpper(b);
    NoLowerIsUpper(e);
    assert e[..Min(3, |e|)] == e;
  }

  /** The base field of a numbered alias, byte by byte. */
  lemma NumberedAt(name: seq<byte>, n: nat, i: nat)
    requires IsShort(name) && NulFree(name) && 1 <= n < 1_000_000 && i < 11
    ensures |Digits(n)| <= 6
    ensures var b, d := Base(name), Digits(n); var k := Min(|b|, 7 - |d|);
      NumberedAlias(name, n)[i] ==
        if i < k then b[i]
        else if i == k then TILDE
        else if i <= k + |d| then d[i - k - 1]
        else if i < 8 then (if i < |b| then b[i] else SPACE)
        else Pad(Ext(name), 3)[i - 8]
  {
    ShortParts(name);
    DigitsFit(n);
    var b, d := Base(name), Digits(n);
    var k := Min(|b|, 7 - |d|);
    hide Digits, Base, Ext, AliasExt, MapUpper, AliasBytes, Splice;
    SpliceAt(Pad(b, 11), k, [TILDE] + d, i);
    SpliceAt(Splice(Pad(b, 11), k, [TILDE] + d), 8, Ext(name), i);
  }

  lemma SpliceAt<T>(s: seq<T>, at: nat, d: seq<T>, i: nat)
    requires at + |d| <= |s| && i < |s|
    ensures |Splice(s, at, d)| == |s| && Splice(s, at, d)[i] == if at <= i < at + |d| then d[i - at] else s[i]
  {
  }

  lemma NumberedShape(name: seq<byte>, n: nat)
    requires IsShort(name) && NulFree(name) && 1 <= n < 1_000_000
    ensures var a := NumberedAlias(name, n); AliasBytes(a[..8]) && a[8..] == Pad(Ext(name), 3)
  {
    ShortParts(name);
    DigitsAreAliasBytes(n);
    var a := NumberedAlias(name, n);
    hide Digits, Base, Ext, NumberedAlias;
    forall i | 0 <= i < 11
      ensures if i < 8 then IsAliasByte(a[i]) else a[i] == Pad(Ext(name), 3)[i - 8]
    {
      NumberedAt(name, n, i);
    }
  }

  /** The alias of a short name has the name's extension, and neither a dot nor a small letter in front. */
  lemma AliasShape(slots: seq<Slot>, name: seq<byte>, a: seq<byte>)
    requires IsShort(name) && NulFree(name) && name != [] && |a| == 11 && AliasFor(slots, name) == Some(a)
    ensures AliasBytes(a[..8]) && a[8..] == Pad(Ext(name), 3)
  {
    if FitsAlias(name) && !Taken(slots, PlainAlias(name)) {
      ShortParts(name);
    } else {
      FirstNumberedIs(slots, name, 1);
      hide FirstNumbered, NumberedAlias, IsShort;
      var n :| 1 <= n < 1_000_000 && a == NumberedAlias(name, n) && !Taken(slots, a);
      NumberedShape(name, n);
    }
  }

  lemma {:induction false} FirstNumberedIs(slots: seq<Slot>, name: seq<byte>, n: nat)
    requires |Base(name)| <= 11 && 1 <= n <= 1_000_000
    ensures var a := FirstNumbered(slots, name, n);
      a.Some? ==> exists m :: n <= m < 1_000_000 && a.value == NumberedAlias(name, m) && !Taken(slots, a.value)
    decreases 1_000_000 - n
  {
    if n < 1_000_000 {
      if Taken(slots, NumberedAlias(name, n)) {
        FirstNumberedIs(slots, name, n + 1);
      } else {
        assert n <= n < 1_000_000;
      }
    }
  }

  // ----- when the alias spells the name -----

  lemma {:induction false} TrimmedOf(s: seq<byte>)
    ensures s == TrimSpaces(s) + seq(|s| - |TrimSpaces(s)|, i => SPACE)
  {
    if s != [] && s[|s| - 1] == SPACE {
      TrimmedOf(s[..|s| - 1]);
    }
  }

  lemma NoSmallLetters(a: seq<byte>, b: seq<byte>)
    requires AliasBytes(a) && AliasBytes(b) && SameName(a, b)
    ensures a == b
  {
    forall i | 0 <= i < |a|
      ensures a[i] == b[i]
    {
      assert Lower(a[i]) == MapLower(a)[i] == MapLower(b)[i] == Lower(b[i]);
      assert !IsLower(a[i]) && !IsLower(b[i]);
    }
  }

  lemma SpelledParts(a: seq<byte>, ext: seq<byte>)
    requires |a| == 11 && AliasBytes(a[..8]) && |ext| <= 3 && NulFree(ext) && SPACE !in ext && a[8..] == Pad(ext, 3)
    ensures var t := TrimSpaces(a[..8]);
      AliasBytes(t) && Spelled(a) == t + if ext == [] then [] else [DOT] + ext
  {
    hide TrimSpaces, CStr;
    var t := TrimSpaces(a[..8]);
    assert forall i :: 0 <= i < |t| ==> t[i] == a[..8][i] && IsAliasByte(t[i]);
    CStrIs(t, t);
    FieldSpells(ext, 3, false);
  }

  /** A name in two parts, without a dot in the first. */
  lemma NameParts(name: seq<byte>)
    ensures DOT !in Base(name) && name == Base(name) + if HasDot(name) then [DOT] + Ext(name) else []
  {
    if HasDot(name) { assert name == Base(name) + [DOT] + Ext(name); }
  }

  lemma NoDotAtEnd(t: seq<byte>, b: seq<byte>)
    requires AliasBytes(t)
    ensures !SameName(t + [], b + ([DOT] + []))
  {
    var r := b + ([DOT] + []);
    if |t| == |r| {
      assert IsAliasByte(t[|b|]);
      assert MapLower(t + [])[|b|] != MapLower(r)[|b|];
    } else {
      assert |MapLower(t + [])| != |MapLower(r)|;
    }
  }

  lemma SameNameParts(t: seq<byte>, b: seq<byte>, e: seq<byte>, dot: bool)
    requires AliasBytes(t) && AliasBytes(b) && (e != [] ==> dot)
    ensures SameName(t + (if e == [] then [] else [DOT] + e), b + if dot then [DOT] + e else []) <==>
      t == b && (dot ==> e != [])
  {
    var l, r := t + (if e == [] then [] else [DOT] + e), b + if dot then [DOT] + e else [];
    if SameName(l, r) {
      assert |MapLower(l)| == |MapLower(r)|;
      NoDotAtEnd(t, b);
      if !dot || e != [] {
        forall i | 0 <= i < |t|
          ensures Lower(t[i]) == Lower(b[i])
        {
          assert Lower(l[i]) == MapLower(l)[i] == MapLower(r)[i] == Lower(r[i]);
        }
        assert MapLower(t) == MapLower(b);
        NoSmallLetters(t, b);
      }
    }
  }

  /** An alias spells a short name, but for case, exactly when it is the plain one and no extension is
      missing behind a dot. */
  lemma SpellsName(name: seq<byte>, a: seq<byte>)
    requires IsShort(name) && NulFree(name) && |a| == 11 && AliasBytes(a[..8]) && a[8..] == Pad(Ext(name), 3)
    ensures SameName(Spelled(a), name) <==> a == PlainAlias(name) && (HasDot(name) ==> Ext(name) != [])
  {
    hide *;
    ShortParts(name);
    SpelledParts(a, Ext(name));
    NameParts(name);
    NoExt(name);
    SameNameParts(TrimSpaces(a[..8]), Base(name), Ext(name), HasDot(name));
    BaseInAlias(name, a);
  }

  lemma NoExt(name: seq<byte>)
    ensures Ext(name) != [] ==> HasDot(name)
  {
  }

  lemma BaseInAlias(name: seq<byte>, a: seq<byte>)
    requires IsShort(name) && NulFree(name) && |a| == 11 && a[8..] == Pad(Ext(name), 3)
    ensures |Base(name)| <= 8 && (a == PlainAlias(name) <==> TrimSpaces(a[..8]) == Base(name))
  {
    ShortParts(name);
    var b := Base(name);
    TrimmedOf(a[..8]);
    TrimmedIsPad(b);
    hide TrimSpaces, NulFree, Base, Ext, AliasBytes;
    assert a == a[..8] + a[8..];
    assert PlainAlias(name) == Pad(b, 8) + Pad(Ext(name), 3);
    assert PlainAlias(name)[..8] == Pad(b, 8);
  }

  lemma TrimmedIsPad(b: seq<byte>)
    requires |b| <= 8 && SPACE !in b
    ensures TrimSpaces(Pad(b, 8)) == b
  {
    if b != [] { assert b[|b| - 1] in b; }
    TrimPad(b, 8 - |b|);
  }

  // ----- when the alias is the plain one -----

  /** The plain alias is free, and the name has only characters that aliases take over, or else the
      lowest free numbered alias happens to be the plain one. */
  predicate TakesPlainAlias(slots: seq<Slot>, name: seq<byte>)
    requires |Base(name)| <= 8
  {
    && !Taken(slots, PlainAlias(name))
    && (FitsAlias(name) || FirstNumbered(slots, name, 1) == Some(PlainAlias(name)))
  }

  lemma PlainAliasTaken(slots: seq<Slot>, name: seq<byte>)
    requires |Base(name)| <= 8 && name != []
    ensures AliasFor(slots, name) == Some(PlainAlias(name)) <==> TakesPlainAlias(slots, name)
  {
    FirstNumberedIs(slots, name, 1);
    hide FirstNumbered, FitsAlias, PlainAlias;
  }

  /** A numbered alias is the plain one exactly when the eight characters of the base end in its tail. */
  lemma NumberedIsPlain(name: seq<byte>, n: nat)
    requires IsShort(name) && NulFree(name) && 1 <= n < 1_000_000
    ensures |Digits(n)| <= 6
    ensures NumberedAlias(name, n) == PlainAlias(name) <==>
      |Base(name)| == 8 && Base(name)[7 - |Digits(n)|..] == [TILDE] + Digits(n)
  {
    ShortParts(name);
    DigitsFit(n);
    DigitsAreDigits(n);
    var b, d, p, a := Base(name), Digits(n), PlainAlias(name), NumberedAlias(name, n);
    var k := Min(|b|, 7 - |d|);
    hide Digits, Base, Ext, NumberedAlias;
    if |b| < 8 {
      var i := if k == |b| then k else 7;
      NumberedAt(name, n, i);
      assert a[i] != p[i];
    } else {
      forall i | 0 <= i < 11
        ensures a[i] == if k <= i < 8 then ([TILDE] + d)[i - k] else p[i]
      {
        NumberedAt(name, n, i);
      }
      assert a == p <==> forall i :: k <= i < 8 ==> a[i] == p[i];
      assert forall i :: k <= i < 8 ==> p[i] == b[i] == b[k..][i - k];
    }
  }

  lemma {:induction false} DigitsAreDigits(n: nat)
    ensures forall i :: 0 <= i < |Digits(n)| ==> 0x30 <= Digits(n)[i] <= 0x39
  {
    if n >= 10 { DigitsAreDigits(n / 10); }
  }

  // ----- names that are found again -----

  /** The name, but for case, under which a new entry reads back. */
  function StoredAs(slots: seq<Slot>, name: seq<byte>): seq<byte>
    requires |Base(name)| <= 11
  {
    match AliasFor(slots, name)
    case None => name
    case Some(a) => if RequiredSlots(name) > 0 then name else Spelled(a)
  }

  /** A new entry can be looked up under the name it was given. */
  predicate FoundAgain(slots: seq<Slot>, name: seq<byte>) {
    || RequiredSlots(name) > 0
    || (|Base(name)| <= 8 && TakesPlainAlias(slots, name) && (HasDot(name) ==> Ext(name) != []))
  }

  lemma StoredUnderOwnName(slots: seq<Slot>, name: seq<byte>)
    requires NulFree(name) && name != [] && |Base(name)| <= 11 && AliasFor(slots, name).Some?
    ensures SameName(StoredAs(slots, name), name) <==> FoundAgain(slots, name)
  {
    if RequiredSlots(name) == 0 {
      var a := AliasFor(slots, name).value;
      AliasShape(slots, name, a);
      SpellsName(name, a);
      PlainAliasTaken(slots, name);
    }
  }
}
