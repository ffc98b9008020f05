/**
  Exactly which texts Python's `int` accepts and what number they stand for (honeypot/services/redis_service.py uses it
  on the counts and lengths that a client sends).
 */
module DecimalLaws {
  import opened Wrappers
  import opened Sequences
  import opened Bytes
  import opened Decimal

  // --------------------------------------------------------------------- stripping

  /** Tab, line feed, vertical tab, form feed, carriage return, the four separators from 28 on, and the space. */
  ghost predicate Blank(s: bytes) {
    forall k :: 0 <= k < |s| ==> s[k] in {9, 10, 11, 12, 13, 28, 29, 30, 31, 32}
  }

  /** The text has `s` between blanks, and `s` neither begins nor ends with one. */
  ghost predicate IsCore(text: bytes, a: bytes, s: bytes, b: bytes) {
    && text == a + s + b && Blank(a) && Blank(b)
    && (s != [] ==> !Blank([s[0]]) && !Blank([s[|s| - 1]]))
  }

  lemma BlankIs(c: byte)
    ensures Blank([c]) <==> IsSpace(c)
  {
    assert [c][0] == c;
  }

  lemma {:induction false} LeftBlanks(a: bytes, s: bytes)
    requires Blank(a) && (s != [] ==> !IsSpace(s[0]))
    ensures StripLeft(a + s) == s
  {
    if a == [] {
      assert a + s == s;
    } else {
      assert (a + s)[1..] == a[1..] + s;
      LeftBlanks(a[1..], s);
    }
  }

  lemma {:induction false} RightBlanks(s: bytes, b: bytes)
    requires Blank(b) && (s != [] ==> !IsSpace(s[|s| - 1]))
    ensures StripRight(s + b) == s
  {
    if b == [] {
      assert s + b == s;
    } else {
      assert (s + b)[..|s + b| - 1] == s + b[..|b| - 1];
      RightBlanks(s, b[..|b| - 1]);
    }
  }

  lemma {:induction false} LeftStripped(text: bytes) returns (a: bytes)
    ensures Blank(a) && text == a + StripLeft(text)
    ensures StripLeft(text) != [] ==> !IsSpace(StripLeft(text)[0])
  {
    a := [];
    if text != [] && IsSpace(text[0]) {
      var rest := LeftStripped(text[1..]);
      a := [text[0]] + rest;
      assert text == [text[0]] + text[1..];
    }
  }

  lemma {:induction false} RightStripped(text: bytes) returns (b: bytes)
    ensures Blank(b) && text == StripRight(text) + b
    ensures StripRight(text) != [] ==> !IsSpace(StripRight(text)[|StripRight(text)| - 1])
  {
    b := [];
    if text != [] && IsSpace(text[|text| - 1]) {
      var rest := RightStripped(text[..|text| - 1]);
      b := rest + [text[|text| - 1]];
      assert text == text[..|text| - 1] + [text[|text| - 1]];
    }
  }

  /** `strip` takes away the blanks at both ends and nothing else. */
  lemma StripIff(text: bytes, s: bytes)
    ensures Strip(text) == s <==> exists a, b :: IsCore(text, a, s, b)
  {
    hide StripLeft, StripRight;
    if s != [] {
      BlankIs(s[0]);
      BlankIs(s[|s| - 1]);
    }
    if Strip(text) == s {
      var a := LeftStripped(text);
      var b := RightStripped(StripLeft(text));
      assert s != [] ==> s[0] == StripLeft(text)[0];
      assert text == a + s + b;
      assert IsCore(text, a, s, b);
    }
    if a, b :| IsCore(text, a, s, b) {
      assert text == a + (s + b);
      if s == [] {
        assert text == (a + b) + s && Blank(a + b);
        LeftBlanks(a + b, s);
        RightBlanks(s, []);
        assert s + [] == s;
      } else {
        LeftBlanks(a, s + b);
        RightBlanks(s, b);
      }
    }
  }

  // ---------------------------------------------------------------------- numerals

  /** Groups of digits, none of them empty. */
  ghost predicate AreGroups(groups: seq<bytes>) {
    groups != [] && forall g :: g in groups ==> IsGroup(g)
  }

  ghost predicate IsGroup(g: bytes) { g != [] && forall k :: 0 <= k < |g| ==> 48 <= g[k] <= 57 }

  /** The groups with an underscore between them. */
  function Underscored(groups: seq<bytes>): bytes {
    if groups == [] then []
    else if |groups| == 1 then groups[0]
    else Underscored(groups[..|groups| - 1]) + [95] + groups[|groups| - 1]
  }

  lemma {:induction false} DigitsConcat(a: bytes, b: bytes)
    ensures DigitsOf(a + b) == DigitsOf(a) + DigitsOf(b)
  {
    hide DigitsOf;
    if a == [] {
      assert a + b == b && DigitsOf(a) + DigitsOf(b) == DigitsOf(b) by { NoDigits(); }
    } else {
      assert a == [a[0]] + a[1..] && a + b == [a[0]] + (a[1..] + b);
      DigitsCons(a[0], a[1..]);
      DigitsCons(a[0], a[1..] + b);
      DigitsConcat(a[1..], b);
    }
  }

  lemma NoDigits()
    ensures DigitsOf([]) == []
  {
  }

  lemma DigitsCons(c: byte, s: bytes)
    ensures DigitsOf([c] + s) == (if IsDigit(c) then [c] else []) + DigitsOf(s)
  {
    assert ([c] + s)[1..] == s;
  }

  lemma DigitsOfOne(c: byte)
    ensures DigitsOf([c]) == if IsDigit(c) then [c] else []
  {
    assert [c][1..] == [];
  }

  lemma UnderscoredStep(groups: seq<bytes>, g: bytes)
    requires groups != []
    ensures Underscored(groups + [g]) == Underscored(groups) + [95] + g
    ensures Concat(groups + [g]) == Concat(groups) + g
  {
    assert (groups + [g])[..|groups|] == groups;
  }

  lemma UnderscoredOne(g: bytes)
    ensures Underscored([g]) == g && Concat([g]) == g
  {
    var none: seq<bytes> := [];
    assert [g][..0] == none && Concat(none) == [] && [] + g == g;
  }

  lemma {:induction false} GroupsAreNumeral(groups: seq<bytes>)
    requires AreGroups(groups)
    ensures IsNumeral(Underscored(groups)) && DigitsOf(Underscored(groups)) == Concat(groups)
  {
    hide IsNumeral, DigitsOf, Underscored, Concat, IsGroup;
    var before, g := groups[..|groups| - 1], groups[|groups| - 1];
    assert groups == before + [g] && IsGroup(g);
    GroupIsNumeral(g);
    if before == [] {
      UnderscoredOne(g);
    } else {
      GroupsAreNumeral(before);
      UnderscoredStep(before, g);
      DigitsConcat(Underscored(before) + [95], g);
      DigitsConcat(Underscored(before), [95]);
      DigitsOfOne(95);
      NumeralJoin(Underscored(before), g);
    }
  }

  lemma GroupIsNumeral(g: bytes)
    requires IsGroup(g)
    ensures IsNumeral(g) && DigitsOf(g) == g
  {
    DigitsAreDigits(g);
  }

  lemma NumeralJoin(s: bytes, g: bytes)
    requires IsNumeral(s) && IsGroup(g)
    ensures IsNumeral(s + [95] + g)
  {
    var t := s + [95] + g;
    assert forall k :: 0 <= k < |s| ==> t[k] == s[k];
    assert forall k :: |s| < k < |t| ==> t[k] == g[k - |s| - 1];
  }

  /** What is left of a numeral without its last digit, and without the underscore before it. */
  lemma NumeralParts(s: bytes)
    requires IsNumeral(s)
    ensures |s| > 0 && IsGroup([s[|s| - 1]]) && s == s[..|s| - 1] + [s[|s| - 1]]
    ensures |s| > 1 && s[|s| - 2] == UNDERSCORE ==>
      |s| > 2 && IsNumeral(s[..|s| - 2]) && s == s[..|s| - 2] + [95] + [s[|s| - 1]]
    ensures |s| > 1 && s[|s| - 2] != UNDERSCORE ==> IsNumeral(s[..|s| - 1])
  {
  }

  lemma GroupGrows(g: bytes, last: bytes)
    requires IsGroup(g) && IsGroup(last)
    ensures IsGroup(g + last)
  {
  }

  /** Every numeral is written in groups. */
  lemma {:induction false} NumeralHasGroups(s: bytes) returns (groups: seq<bytes>)
    requires IsNumeral(s)
    ensures AreGroups(groups) && Underscored(groups) == s
  {
    hide IsNumeral, Underscored, IsGroup;
    NumeralParts(s);
    var n := |s| - 1;
    var before, last := s[..n], [s[n]];
    if before == [] {
      UnderscoredOne(last);
      groups := [last];
      assert s == last;
    } else if s[n - 1] == UNDERSCORE {
      var shorter := s[..n - 1];
      var rest := NumeralHasGroups(shorter);
      UnderscoredStep(rest, last);
      groups := rest + [last];
    } else {
      var rest := NumeralHasGroups(before);
      var init, g := rest[..|rest| - 1], rest[|rest| - 1];
      assert rest == init + [g] && IsGroup(g);
      GroupGrows(g, last);
      groups := init + [g + last];
      if init == [] {
        UnderscoredOne(g);
        UnderscoredOne(g + last);
        assert rest == [g] && groups == [g + last];
      } else {
        UnderscoredStep(init, g);
        UnderscoredStep(init, g + last);
        assert (Underscored(init) + [95] + g) + last == Underscored(init) + [95] + (g + last);
      }
    }
  }

  // ------------------------------------------------------------------------ parsing

  /** The text is a number's sign, if any, and its digits in groups, and stands for `v`. */
  ghost predicate Denotes(sign: bytes, groups: seq<bytes>, v: int) {
    && (sign == [] || sign == [43] || sign == [45]) && AreGroups(groups) && |Concat(groups)| <= 4300
    && AllDigits(Concat(groups))
    && v == if sign == [45] then -(ValueOf(Concat(groups)) as int) else ValueOf(Concat(groups))
  }

  predicate AllDigits(s: bytes) { forall k :: 0 <= k < |s| ==> IsDigit(s[k]) }

  lemma NumeralIff(s: bytes, n: nat)
    ensures ParseNumeral(s) == Some(n) <==>
      exists groups :: s == Underscored(groups) && Denotes([], groups, n)
  {
    hide IsNumeral, Underscored, Concat, DigitsOf, ValueOf;
    DigitsAreDigits(s);
    if ParseNumeral(s) == Some(n) {
      var groups := NumeralHasGroups(s);
      GroupsAreNumeral(groups);
      assert Denotes([], groups, n);
    }
    if groups :| s == Underscored(groups) && Denotes([], groups, n) {
      GroupsAreNumeral(groups);
    }
  }

  /** `int` accepts a text if and only if, blanks at its ends aside, it is an optional sign and at most 4300 digits,
      with single underscores between some of them; and then it is the number that they denote. */
  lemma ParseIff(text: bytes, v: int)
    ensures ParseInt(text) == Some(v) <==>
      exists a, sign, groups, b :: IsCore(text, a, sign + Underscored(groups), b) && Denotes(sign, groups, v)
  {
    hide ParseNumeral, Underscored, Denotes, IsCore, Strip;
    var s := Strip(text);
    StripIff(text, s);
    var a0, b0 :| IsCore(text, a0, s, b0);
    if ParseInt(text) == Some(v) {
      var sign, digits, n := SignAndDigits(s, v);
      NumeralIff(digits, n);
      var groups :| digits == Underscored(groups) && Denotes([], groups, n);
      SignedDenotes(sign, groups, n);
      assert IsCore(text, a0, sign + Underscored(groups), b0);
    }
    if a, sign, groups, b :| IsCore(text, a, sign + Underscored(groups), b) && Denotes(sign, groups, v) {
      StripIff(text, sign + Underscored(groups));
      var n := UnsignedDenotes(sign, groups, v);
      var digits := Underscored(groups);
      NumeralIff(digits, n);
      DigitFirst(groups);
      assert sign == [] ==> sign + digits == digits;
      assert sign != [] ==> (sign + digits)[1..] == digits;
    }
  }

  lemma SignAndDigits(s: bytes, v: int) returns (sign: bytes, digits: bytes, n: nat)
    requires exists text :: Strip(text) == s && ParseInt(text) == Some(v)
    ensures s == sign + digits && (sign == [] || sign == [43] || sign == [45])
    ensures ParseNumeral(digits) == Some(n) && v == if sign == [45] then -(n as int) else n
  {
    hide ParseNumeral, Strip;
    sign := if s[0] == MINUS || s[0] == PLUS then [s[0]] else [];
    digits := s[|sign|..];
    n := ParseNumeral(digits).value;
  }

  lemma SignedDenotes(sign: bytes, groups: seq<bytes>, n: nat)
    requires Denotes([], groups, n) && (sign == [] || sign == [43] || sign == [45])
    ensures Denotes(sign, groups, if sign == [45] then -(n as int) else n)
  {
  }

  lemma UnsignedDenotes(sign: bytes, groups: seq<bytes>, v: int) returns (n: nat)
    requires Denotes(sign, groups, v)
    ensures Denotes([], groups, n) && v == (if sign == [45] then -(n as int) else n)
    ensures sign == [] || sign == [43] || sign == [45]
  {
    n := ValueOf(Concat(groups));
  }

  lemma DigitFirst(groups: seq<bytes>)
    requires exists sign, v :: Denotes(sign, groups, v)
    ensures Underscored(groups) != [] && IsDigit(Underscored(groups)[0])
  {
    GroupsAreNumeral(groups);
  }
}
