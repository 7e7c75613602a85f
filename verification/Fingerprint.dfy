/** The canonical form of a race document and its JSON fingerprint. */
module Fingerprints {
  import opened Wrappers

  /** GET /race/current; None for a key that is absent (for race_id, state and frame_epoch_ms
      also for null). */
  datatype Race = Race(raceId: Option<int>, state: Option<string>, armed: Option<bool>, slotCount: Option<int>,
                       toaMs: Option<int>, guardMs: Option<int>, frameEpochMs: Option<int>,
                       slots: Option<seq<(int, int)>>)

  datatype Canonical = Canonical(raceId: Option<int>, state: Option<string>, armed: bool, slotCount: int,
                                 toaMs: int, guardMs: int, frameEpochMs: int, slots: seq<(int, int)>)

  // ----- sorting the slot list -----

  predicate Before(a: (int, int), b: (int, int)) {
    a.0 < b.0 || (a.0 == b.0 && a.1 <= b.1)
  }

  predicate IsSorted(s: seq<(int, int)>) {
    forall i, j | 0 <= i < j < |s| :: Before(s[i], s[j])
  }

  function InsertSorted(e: (int, int), s: seq<(int, int)>): seq<(int, int)> {
    if s == [] then [e]
    else if Before(e, s[0]) then [e] + s
    else [s[0]] + InsertSorted(e, s[1..])
  }

  /** Python's sorted(): its contract alone determines the result, see SortedIsUnique. */
  function Sorted(s: seq<(int, int)>): seq<(int, int)> {
    if s == [] then [] else InsertSorted(s[0], Sorted(s[1..]))
  }

  lemma {:induction false} InsertPermutes(e: (int, int), s: seq<(int, int)>)
    ensures multiset(InsertSorted(e, s)) == multiset(s) + multiset{e}
    decreases |s|
  {
    if s != [] {
      InsertPermutes(e, s[1..]);
      assert s == [s[0]] + s[1..];
    }
  }

  lemma {:induction false} InsertKeepsSorted(e: (int, int), s: seq<(int, int)>)
    requires IsSorted(s)
    ensures IsSorted(InsertSorted(e, s))
    decreases |s|
  {
    if s != [] && !Before(e, s[0]) {
      var r := InsertSorted(e, s[1..]);
      InsertKeepsSorted(e, s[1..]);
      InsertPermutes(e, s[1..]);
      forall j | 0 <= j < |r|
        ensures Before(s[0], r[j])
      {
        assert r[j] in multiset(r);
        assert r[j] == e || r[j] in s[1..];
      }
    }
  }

  lemma {:induction false} SortedSorts(s: seq<(int, int)>)
    ensures IsSorted(Sorted(s)) && multiset(Sorted(s)) == multiset(s)
    decreases |s|
  {
    if s != [] {
      SortedSorts(s[1..]);
      InsertKeepsSorted(s[0], Sorted(s[1..]));
      InsertPermutes(s[0], Sorted(s[1..]));
      assert s == [s[0]] + s[1..];
    }
  }

  lemma SameFirst(a: seq<(int, int)>, b: seq<(int, int)>)
    requires IsSorted(a) && IsSorted(b) && multiset(a) == multiset(b) && a != []
    ensures b != [] && a[0] == b[0]
  {
    assert a[0] in multiset(a);
    assert a[0] in multiset(b) && a[0] in b;
    assert b[0] in multiset(b);
    assert b[0] in multiset(a) && b[0] in a;
  }

  lemma TailIsSorted(a: seq<(int, int)>)
    requires IsSorted(a) && a != []
    ensures IsSorted(a[1..])
  {
    hide Before;
  }

  lemma {:induction false} SortedIsUnique(a: seq<(int, int)>, b: seq<(int, int)>)
    requires IsSorted(a) && IsSorted(b) && multiset(a) == multiset(b)
    ensures a == b
    decreases |a|
  {
    hide IsSorted;
    if a == [] {
      assert |multiset(b)| == |b|;
    } else {
      SameFirst(a, b);
      TailIsSorted(a);
      TailIsSorted(b);
      assert a == [a[0]] + a[1..] && b == [b[0]] + b[1..];
      assert multiset(a[1..]) == multiset(a) - multiset{a[0]} == multiset(b[1..]);
      SortedIsUnique(a[1..], b[1..]);
    }
  }

  /** _canonical_state */
  function Canonicalize(r: Race): Canonical {
    Canonical(r.raceId, r.state, OrElse(r.armed, false), OrElse(r.slotCount, 0), OrElse(r.toaMs, 0),
              OrElse(r.guardMs, 0), OrElse(r.frameEpochMs, 0), Sorted(OrElse(r.slots, [])))
  }

  // ----- json.dumps of a canonical state -----

  function Digits(n: nat): (s: string)
    ensures s != [] && forall c | c in s :: '0' <= c <= '9'
  {
    if n < 10 then ['0' + n as char] else Digits(n / 10) + ['0' + (n % 10) as char]
  }

  function IntText(x: int): string {
    if x < 0 then "-" + Digits(-x) else Digits(x)
  }

  function BoolText(b: bool): string {
    if b then "true" else "false"
  }

  /** The slot list after its opening bracket. */
  function SlotsText(slots: seq<(int, int)>, first: bool): string {
    if slots == [] then "]"
    else (if first then "" else ",")
         + ("[" + (IntText(slots[0].0) + ("," + (IntText(slots[0].1) + ("]" + SlotsText(slots[1..], false))))))
  }

  function HexDigit(n: nat): char
    requires n < 16
  {
    if n < 10 then '0' + n as char else 'a' + (n - 10) as char
  }

  /** \uXXXX */
  function UnicodeEscape(n: nat): (s: string)
    requires n < 0x1_0000
    ensures |s| == 6
  {
    ['\\', 'u', HexDigit(n / 16 / 16 / 16), HexDigit(n / 16 / 16 % 16), HexDigit(n / 16 % 16), HexDigit(n % 16)]
  }

  /** One character of a string in JSON's ASCII-only form. */
  function Escaped(c: char): string {
    var n := c as int;
    if c == '\"' then "\\\""
    else if c == '\\' then "\\\\"
    else if n == 10 then "\\n"
    else if n == 13 then "\\r"
    else if n == 9 then "\\t"
    else if n == 12 then "\\f"
    else if n == 8 then "\\b"
    else if 32 <= n <= 126 then [c]
    else if n < 0x1_0000 then UnicodeEscape(n)
    else UnicodeEscape(0xD800 + (n - 0x1_0000) / 0x400) + UnicodeEscape(0xDC00 + (n - 0x1_0000) % 0x400)
  }

  /** The rest of a string literal after its opening quote. */
  function StringText(s: string): string {
    if s == [] then "\"" else Escaped(s[0]) + StringText(s[1..])
  }

  function OptionalInt(x: Option<int>): string {
    if x.Some? then IntText(x.value) else "null"
  }

  function OptionalString(x: Option<string>): string {
    if x.Some? then "\"" + StringText(x.value) else "null"
  }

  /** Keys in alphabetical order, compact separators. */
  function Fingerprint(c: Canonical): string {
    "{\"armed\":" + (BoolText(c.armed)
    + (",\"frame_epoch_ms\":" + (IntText(c.frameEpochMs)
    + (",\"guard_ms\":" + (IntText(c.guardMs)
    + (",\"race_id\":" + (OptionalInt(c.raceId)
    + (",\"slot_count\":" + (IntText(c.slotCount)
    + (",\"slots\":[" + (SlotsText(c.slots, true)
    + (",\"state\":" + (OptionalString(c.state)
    + (",\"toa_ms\":" + (IntText(c.toaMs)
    + "}")))))))))))))))
  }

  // ----- every printed form can be read back from the front of a text -----

  predicate StartsWithoutDigit(s: string) {
    s == [] || !('0' <= s[0] <= '9')
  }

  lemma Peel(p: string, x: string, y: string)
    requires p + x == p + y
    ensures x == y
  {
    assert x == (p + x)[|p|..] && y == (p + y)[|p|..];
  }

  function LeadingDigits(s: string): nat {
    if s == [] || !('0' <= s[0] <= '9') then 0 else 1 + LeadingDigits(s[1..])
  }

  lemma {:induction false} RunOfDigits(a: string, x: string)
    requires (forall c | c in a :: '0' <= c <= '9') && StartsWithoutDigit(x)
    ensures LeadingDigits(a + x) == |a|
    decreases |a|
  {
    if a == [] {
      assert a + x == x;
    } else {
      assert a[0] in a && forall c | c in a[1..] :: c in a;
      assert (a + x)[1..] == a[1..] + x;
      RunOfDigits(a[1..], x);
    }
  }

  /** A run of digits ends where the digits end. */
  lemma DigitRunEnds(a: string, x: string, b: string, y: string)
    requires (forall c | c in a :: '0' <= c <= '9') && (forall c | c in b :: '0' <= c <= '9')
    requires StartsWithoutDigit(x) && StartsWithoutDigit(y)
    requires a + x == b + y
    ensures a == b && x == y
  {
    RunOfDigits(a, x);
    RunOfDigits(b, y);
    assert a == (a + x)[..|a|] && b == (b + y)[..|a|];
    Peel(a, x, y);
  }

  lemma {:induction false} DigitsInjective(m: nat, n: nat)
    requires Digits(m) == Digits(n)
    ensures m == n
    decreases m
  {
    var s, t := Digits(m), Digits(n);
    if m < 10 {
      assert |s| == 1;
    } else {
      assert |s| == |Digits(m / 10)| + 1;
    }
    assert s[|s| - 1] == '0' + (m % 10) as char && t[|t| - 1] == '0' + (n % 10) as char;
    if m >= 10 && n >= 10 {
      assert s[..|s| - 1] == Digits(m / 10) && t[..|t| - 1] == Digits(n / 10);
      DigitsInjective(m / 10, n / 10);
    }
  }

  lemma IntStart(a: int, x: string)
    ensures var s := IntText(a) + x; s != [] && (s[0] == '-' <==> a < 0) && s[0] != 'n' && IntText(a) != []
    ensures a < 0 ==> IntText(a) + x == "-" + (Digits(-a) + x)
  {
    hide Digits;
    if a >= 0 {
      assert (Digits(a) + x)[0] == Digits(a)[0] && Digits(a)[0] in Digits(a);
    }
  }

  lemma IntReadable(a: int, x: string, b: int, y: string)
    requires StartsWithoutDigit(x) && StartsWithoutDigit(y) && IntText(a) + x == IntText(b) + y
    ensures a == b && x == y
  {
    hide Digits;
    IntStart(a, x);
    IntStart(b, y);
    if a < 0 {
      Peel("-", Digits(-a) + x, Digits(-b) + y);
      DigitRunEnds(Digits(-a), x, Digits(-b), y);
      DigitsInjective(-a, -b);
    } else {
      DigitRunEnds(Digits(a), x, Digits(b), y);
      DigitsInjective(a, b);
    }
  }

  lemma BoolReadable(a: bool, x: string, b: bool, y: string)
    requires BoolText(a) + x == BoolText(b) + y
    ensures a == b && x == y
  {
    assert (BoolText(a) + x)[0] == BoolText(a)[0] && (BoolText(b) + y)[0] == BoolText(b)[0];
    Peel(BoolText(a), x, y);
  }

  lemma OptionalIntReadable(a: Option<int>, x: string, b: Option<int>, y: string)
    requires StartsWithoutDigit(x) && StartsWithoutDigit(y) && OptionalInt(a) + x == OptionalInt(b) + y
    ensures a == b && x == y
  {
    hide IntText;
    var s := OptionalInt(a) + x;
    if a.Some? { IntStart(a.value, x); } else { assert s[0] == 'n'; }
    if b.Some? { IntStart(b.value, y); } else { assert s[0] == 'n'; }
    if a.Some? {
      IntReadable(a.value, x, b.value, y);
    } else {
      Peel("null", x, y);
    }
  }

  lemma SlotsStart(a: seq<(int, int)>, first: bool, x: string)
    ensures var s := SlotsText(a, first) + x;
      && s != [] && (s[0] == ']' <==> a == [])
      && (a == [] ==> s == "]" + x)
      && (a != [] ==>
            s == (if first then "" else ",")
                 + ("[" + (IntText(a[0].0) + ("," + (IntText(a[0].1) + ("]" + (SlotsText(a[1..], false) + x)))))))
  {
    hide IntText;
    if a != [] {
      var u := SlotsText(a[1..], false);
      var p, q := IntText(a[0].0), IntText(a[0].1);
      Associate("]", u, x);
      Associate(q, "]" + u, x);
      Associate(",", q + ("]" + u), x);
      Associate(p, "," + (q + ("]" + u)), x);
      Associate("[", p + ("," + (q + ("]" + u))), x);
      Associate(if first then "" else ",", "[" + (p + ("," + (q + ("]" + u)))), x);
    }
  }

  lemma Associate(a: string, b: string, c: string)
    ensures (a + b) + c == a + (b + c)
  {
  }

  lemma {:induction false} SlotsReadable(a: seq<(int, int)>, x: string, b: seq<(int, int)>, y: string, first: bool)
    requires SlotsText(a, first) + x == SlotsText(b, first) + y
    ensures a == b && x == y
    decreases |a|
  {
    hide SlotsText, IntText;
    SlotsStart(a, first, x);
    SlotsStart(b, first, y);
    if a == [] {
      Peel("]", x, y);
    } else {
      var u, v := SlotsText(a[1..], false) + x, SlotsText(b[1..], false) + y;
      var u1, v1 := IntText(a[0].1) + ("]" + u), IntText(b[0].1) + ("]" + v);
      var u0, v0 := IntText(a[0].0) + ("," + u1), IntText(b[0].0) + ("," + v1);
      Peel(if first then "" else ",", "[" + u0, "[" + v0);
      Peel("[", u0, v0);
      IntReadable(a[0].0, "," + u1, b[0].0, "," + v1);
      Peel(",", u1, v1);
      IntReadable(a[0].1, "]" + u, b[0].1, "]" + v);
      Peel("]", u, v);
      SlotsReadable(a[1..], x, b[1..], y, false);
      assert a == [a[0]] + a[1..] && b == [b[0]] + b[1..];
    }
  }

  lemma HexInjective(m: nat, n: nat)
    requires m < 16 && n < 16 && HexDigit(m) == HexDigit(n)
    ensures m == n
  {
  }

  lemma DivModInjective(m: nat, n: nat)
    requires m / 16 == n / 16 && m % 16 == n % 16
    ensures m == n
  {
  }

  lemma UnicodeInjective(m: nat, n: nat)
    requires m < 0x1_0000 && n < 0x1_0000 && UnicodeEscape(m) == UnicodeEscape(n)
    ensures m == n
  {
    var s, t := UnicodeEscape(m), UnicodeEscape(n);
    assert s[2] == t[2] && s[3] == t[3] && s[4] == t[4] && s[5] == t[5];
    hide HexDigit;
    HexInjective(m / 16 / 16 / 16, n / 16 / 16 / 16);
    HexInjective(m / 16 / 16 % 16, n / 16 / 16 % 16);
    DivModInjective(m / 16 / 16, n / 16 / 16);
    HexInjective(m / 16 % 16, n / 16 % 16);
    DivModInjective(m / 16, n / 16);
    HexInjective(m % 16, n % 16);
    DivModInjective(m, n);
  }

  /** How the escape of a character begins tells its kind, and with it its length. */
  lemma EscapeShape(c: char)
    ensures var e, n := Escaped(c), c as int;
      && e != [] && e[0] != '\"'
      && (e[0] == '\\' <==> |e| > 1)
      && (|e| == 1 ==> e == [c])
      && (|e| > 1 ==> (e[1] == 'u' <==> |e| > 2))
      && (|e| == 1 || |e| == 2 || |e| == 6 || |e| == 12)
      && (|e| == 6 ==> n < 0x1_0000 && e == UnicodeEscape(n))
      && (|e| == 12 ==> n >= 0x1_0000
                        && e[..6] == UnicodeEscape(0xD800 + (n - 0x1_0000) / 0x400)
                        && e[6..] == UnicodeEscape(0xDC00 + (n - 0x1_0000) % 0x400))
  {
  }

  lemma CharReadable(c: char, x: string, d: char, y: string)
    requires Escaped(c) + x == Escaped(d) + y
    ensures c == d && x == y
  {
    hide Escaped, UnicodeEscape;
    var e, f := Escaped(c), Escaped(d);
    EscapeShape(c);
    EscapeShape(d);
    var s := e + x;
    assert forall i | 0 <= i < |e| :: s[i] == e[i];
    assert forall i | 0 <= i < |f| :: s[i] == f[i];
    if |e| == |f| {
      assert e == s[..|e|] == f;
      Peel(e, x, y);
      SameEscape(c, d);
    } else {
      assert |e| > 2 && |f| > 2;
      assert e[..6] == s[..6] == f[..6];
      HalfIsNoCharacter(c, d);
    }
  }

  lemma SameShortEscape(c: char, d: char)
    requires |Escaped(c)| == 2 && Escaped(c) == Escaped(d)
    ensures c == d
  {
    hide UnicodeEscape;
    assert Escaped(c)[1] == Escaped(d)[1];
  }

  lemma PairInjective(n: nat, m: nat)
    requires n / 0x400 == m / 0x400 && n % 0x400 == m % 0x400
    ensures n == m
  {
    assert n == 0x400 * (n / 0x400) + n % 0x400 && m == 0x400 * (m / 0x400) + m % 0x400;
  }

  lemma SameEscape(c: char, d: char)
    requires Escaped(c) == Escaped(d)
    ensures c == d
  {
    hide Escaped, UnicodeEscape;
    EscapeShape(c);
    EscapeShape(d);
    var n, m := c as int, d as int;
    if |Escaped(c)| == 2 {
      SameShortEscape(c, d);
    } else if |Escaped(c)| == 6 {
      UnicodeInjective(n, m);
    } else if |Escaped(c)| == 12 {
      UnicodeInjective(0xD800 + (n - 0x1_0000) / 0x400, 0xD800 + (m - 0x1_0000) / 0x400);
      UnicodeInjective(0xDC00 + (n - 0x1_0000) % 0x400, 0xDC00 + (m - 0x1_0000) % 0x400);
      PairInjective(n - 0x1_0000, m - 0x1_0000);
    }
  }

  /** A surrogate is not a character, so half of a pair is never mistaken for one. */
  lemma HalfIsNoCharacter(c: char, d: char)
    requires |Escaped(c)| > 2 && |Escaped(d)| > 2 && Escaped(c)[..6] == Escaped(d)[..6]
    ensures |Escaped(c)| == |Escaped(d)|
  {
    hide Escaped, UnicodeEscape;
    EscapeShape(c);
    EscapeShape(d);
    var n, m := c as int, d as int;
    if |Escaped(c)| == 6 && |Escaped(d)| == 12 {
      UnicodeInjective(n, 0xD800 + (m - 0x1_0000) / 0x400);
    } else if |Escaped(c)| == 12 && |Escaped(d)| == 6 {
      UnicodeInjective(0xD800 + (n - 0x1_0000) / 0x400, m);
    }
  }

  lemma StringStart(a: string, x: string)
    ensures var s := StringText(a) + x;
      && s != [] && (s[0] == '\"' <==> a == [])
      && (a == [] ==> s == "\"" + x)
      && (a != [] ==> s == Escaped(a[0]) + (StringText(a[1..]) + x))
  {
    hide Escaped;
    if a != [] {
      EscapeShape(a[0]);
      Associate(Escaped(a[0]), StringText(a[1..]), x);
    }
  }

  lemma {:induction false} StringReadable(a: string, x: string, b: string, y: string)
    requires StringText(a) + x == StringText(b) + y
    ensures a == b && x == y
    decreases |a|
  {
    hide StringText, Escaped;
    StringStart(a, x);
    StringStart(b, y);
    if a == [] {
      Peel("\"", x, y);
    } else {
      CharReadable(a[0], StringText(a[1..]) + x, b[0], StringText(b[1..]) + y);
      StringReadable(a[1..], x, b[1..], y);
      assert a == [a[0]] + a[1..] && b == [b[0]] + b[1..];
    }
  }

  lemma OptionalStringReadable(a: Option<string>, x: string, b: Option<string>, y: string)
    requires OptionalString(a) + x == OptionalString(b) + y
    ensures a == b && x == y
  {
    hide StringText;
    var s := OptionalString(a) + x;
    if a.Some? { Associate("\"", StringText(a.value), x); }
    if b.Some? { Associate("\"", StringText(b.value), y); }
    assert s[0] == (if a.Some? then '\"' else 'n') && s[0] == (if b.Some? then '\"' else 'n');
    if a.Some? {
      Peel("\"", StringText(a.value) + x, StringText(b.value) + y);
      StringReadable(a.value, x, b.value, y);
    } else {
      Peel("null", x, y);
    }
  }

  /** The fingerprint is injective on canonical states: the cache comparison never mistakes one
      state for another. */
  lemma FingerprintInjective(a: Canonical, b: Canonical)
    requires Fingerprint(a) == Fingerprint(b)
    ensures a == b
  {
    hide IntText, BoolText, OptionalInt, OptionalString, SlotsText;
    var a7, b7 := IntText(a.toaMs) + "}", IntText(b.toaMs) + "}";
    var a6, b6 := OptionalString(a.state) + (",\"toa_ms\":" + a7), OptionalString(b.state) + (",\"toa_ms\":" + b7);
    var a5, b5 := SlotsText(a.slots, true) + (",\"state\":" + a6), SlotsText(b.slots, true) + (",\"state\":" + b6);
    var a4, b4 := IntText(a.slotCount) + (",\"slots\":[" + a5), IntText(b.slotCount) + (",\"slots\":[" + b5);
    var a3, b3 := OptionalInt(a.raceId) + (",\"slot_count\":" + a4), OptionalInt(b.raceId) + (",\"slot_count\":" + b4);
    var a2, b2 := IntText(a.guardMs) + (",\"race_id\":" + a3), IntText(b.guardMs) + (",\"race_id\":" + b3);
    var a1, b1 := IntText(a.frameEpochMs) + (",\"guard_ms\":" + a2), IntText(b.frameEpochMs) + (",\"guard_ms\":" + b2);
    var a0, b0 := BoolText(a.armed) + (",\"frame_epoch_ms\":" + a1), BoolText(b.armed) + (",\"frame_epoch_ms\":" + b1);
    Peel("{\"armed\":", a0, b0);
    BoolReadable(a.armed, ",\"frame_epoch_ms\":" + a1, b.armed, ",\"frame_epoch_ms\":" + b1);
    Peel(",\"frame_epoch_ms\":", a1, b1);
    IntReadable(a.frameEpochMs, ",\"guard_ms\":" + a2, b.frameEpochMs, ",\"guard_ms\":" + b2);
    Peel(",\"guard_ms\":", a2, b2);
    IntReadable(a.guardMs, ",\"race_id\":" + a3, b.guardMs, ",\"race_id\":" + b3);
    Peel(",\"race_id\":", a3, b3);
    OptionalIntReadable(a.raceId, ",\"slot_count\":" + a4, b.raceId, ",\"slot_count\":" + b4);
    Peel(",\"slot_count\":", a4, b4);
    IntReadable(a.slotCount, ",\"slots\":[" + a5, b.slotCount, ",\"slots\":[" + b5);
    Peel(",\"slots\":[", a5, b5);
    SlotsReadable(a.slots, ",\"state\":" + a6, b.slots, ",\"state\":" + b6, true);
    Peel(",\"state\":", a6, b6);
    OptionalStringReadable(a.state, ",\"toa_ms\":" + a7, b.state, ",\"toa_ms\":" + b7);
    Peel(",\"toa_ms\":", a7, b7);
    IntReadable(a.toaMs, "}", b.toaMs, "}");
  }

  /** Two race documents have equal fingerprints exactly when their normalised scalars agree and
      their slot lists are the same up to order. */
  lemma FingerprintIff(r: Race, q: Race)
    ensures Fingerprint(Canonicalize(r)) == Fingerprint(Canonicalize(q)) <==>
      && r.raceId == q.raceId && r.state == q.state
      && OrElse(r.armed, false) == OrElse(q.armed, false)
      && OrElse(r.slotCount, 0) == OrElse(q.slotCount, 0) && OrElse(r.toaMs, 0) == OrElse(q.toaMs, 0)
      && OrElse(r.guardMs, 0) == OrElse(q.guardMs, 0)
      && OrElse(r.frameEpochMs, 0) == OrElse(q.frameEpochMs, 0)
      && multiset(OrElse(r.slots, [])) == multiset(OrElse(q.slots, []))
  {
    hide Fingerprint;
    if Fingerprint(Canonicalize(r)) == Fingerprint(Canonicalize(q)) {
      FingerprintInjective(Canonicalize(r), Canonicalize(q));
    }
    SortedSorts(OrElse(r.slots, []));
    SortedSorts(OrElse(q.slots, []));
    if multiset(OrElse(r.slots, [])) == multiset(OrElse(q.slots, [])) {
      SortedIsUnique(Sorted(OrElse(r.slots, [])), Sorted(OrElse(q.slots, [])));
    }
  }
}
