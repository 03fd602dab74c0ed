/**
 The string operations behind the ConfigDB translation: splitting and joining table keys, trimming,
 and decimal numbers as Python reads and prints them.
 */
module YangText {
  import opened Wrappers

  // ---- Splitting and joining at '|' ----

  const BAR := '|'

  function SplitAt(s: string, sep: char): (r: seq<string>)
    ensures |r| >= 1 && forall k :: 0 <= k < |r| ==> sep !in r[k]
  {
    if s == "" then [""]
    else
      var r := SplitAt(s[1..], sep);
      if s[0] == sep then [""] + r else [[s[0]] + r[0]] + r[1..]
  }

  function Split(s: string): seq<string> { SplitAt(s, BAR) }

  function Join(parts: seq<string>): string
    requires |parts| >= 1
  {
    if |parts| == 1 then parts[0] else parts[0] + [BAR] + Join(parts[1..])
  }

  lemma {:induction false} JoinSplit(s: string)
    ensures Join(Split(s)) == s
  {
    if s != "" {
      JoinSplit(s[1..]);
      var r := Split(s[1..]);
      if s[0] == BAR {
        assert ([""] + r)[1..] == r;
      } else {
        assert ([[s[0]] + r[0]] + r[1..])[1..] == r[1..];
        assert s == [s[0]] + s[1..];
      }
    }
  }

  lemma {:induction false} SplitFirst(p: string, s: string, sep: char)
    requires sep !in p
    ensures SplitAt(p + [sep] + s, sep) == [p] + SplitAt(s, sep)
  {
    if p == "" {
      assert p + [sep] + s == [sep] + s;
    } else {
      SplitFirst(p[1..], s, sep);
      assert (p + [sep] + s)[1..] == p[1..] + [sep] + s;
      assert [p[0]] + p[1..] == p;
    }
  }

  lemma {:induction false} SplitPlain(p: string, sep: char)
    requires sep !in p
    ensures SplitAt(p, sep) == [p]
  {
    if p != "" {
      SplitPlain(p[1..], sep);
      assert [p[0]] + p[1..] == p;
    }
  }

  lemma {:induction false} SplitJoin(parts: seq<string>)
    requires |parts| >= 1 && forall k :: 0 <= k < |parts| ==> BAR !in parts[k]
    ensures Split(Join(parts)) == parts
  {
    if |parts| == 1 {
      SplitPlain(parts[0], BAR);
    } else {
      SplitFirst(parts[0], Join(parts[1..]), BAR);
      SplitJoin(parts[1..]);
    }
  }

  /** Every part followed by a bar. */
  function Glue(parts: seq<string>): string {
    if parts == [] then "" else parts[0] + [BAR] + Glue(parts[1..])
  }

  function StripBars(s: string): string {
    if s != "" && s[|s| - 1] == BAR then StripBars(s[..|s| - 1]) else s
  }

  lemma {:induction false} GlueIsJoin(parts: seq<string>)
    requires |parts| >= 1
    ensures Glue(parts) == Join(parts) + [BAR]
  {
    if |parts| > 1 {
      GlueIsJoin(parts[1..]);
    } else {
      assert Glue(parts[1..]) == "";
    }
  }

  lemma {:induction false} JoinEnd(parts: seq<string>)
    requires |parts| >= 1 && parts[|parts| - 1] != "" && BAR !in parts[|parts| - 1]
    ensures Join(parts) != "" && Join(parts)[|Join(parts)| - 1] != BAR
  {
    if |parts| > 1 {
      JoinEnd(parts[1..]);
    }
  }

  lemma GluedKey(parts: seq<string>)
    requires |parts| >= 1 && parts[|parts| - 1] != "" && BAR !in parts[|parts| - 1]
    ensures StripBars(Glue(parts)) == Join(parts)
  {
    GlueIsJoin(parts);
    JoinEnd(parts);
    assert Glue(parts)[..|Glue(parts)| - 1] == Join(parts);
  }

  // ---- Trimming ----

  predicate IsSpace(c: char) {
    c == ' ' || c == '\t' || c == '\n' || c == '\r' || c == '\U{0B}' || c == '\U{0C}'
  }

  function Strip(s: string): (r: string)
    ensures forall c :: c in r ==> c in s
  {
    if s != "" && IsSpace(s[0]) then Strip(s[1..])
    else if s != "" && IsSpace(s[|s| - 1]) then Strip(s[..|s| - 1])
    else s
  }

  function Stripped(parts: seq<string>): (r: seq<string>)
    ensures |r| == |parts| && forall k :: 0 <= k < |r| ==> r[k] == Strip(parts[k])
  {
    seq(|parts|, k requires 0 <= k < |parts| => Strip(parts[k]))
  }

  /** The table key that reverse translation makes of a table key: its parts trimmed, glued together
      and the trailing bars removed; nothing if a part is empty. */
  function KeyBack(key: string): Option<string> {
    var parts := Stripped(Split(key));
    if "" in parts then None else Some(StripBars(Glue(parts)))
  }

  predicate IsTrimmed(key: string) {
    forall k :: 0 <= k < |Split(key)| ==> Split(key)[k] != "" && Strip(Split(key)[k]) == Split(key)[k]
  }

  lemma StrippedPlain(parts: seq<string>)
    requires forall k :: 0 <= k < |parts| ==> BAR !in parts[k]
    ensures forall k :: 0 <= k < |parts| ==> BAR !in Stripped(parts)[k]
  {
  }

  /** A table key survives exactly if its parts are trimmed and none is empty. */
  lemma KeySurvivesExactly(key: string)
    ensures KeyBack(key) == Some(key) <==> IsTrimmed(key)
  {
    var parts := Split(key);
    var stripped := Stripped(parts);
    StrippedPlain(parts);
    JoinSplit(key);
    if "" in stripped {
      var k :| 0 <= k < |stripped| && stripped[k] == "";
      assert parts[k] == "" || Strip(parts[k]) != parts[k];
    } else {
      assert stripped[|stripped| - 1] in stripped;
      GluedKey(stripped);
      SplitJoin(stripped);
      assert KeyBack(key) == Some(key) <==> stripped == parts;
      assert stripped == parts <==> IsTrimmed(key) by {
        forall k | 0 <= k < |parts| && IsTrimmed(key)
          ensures stripped[k] == parts[k]
        {
        }
        forall k | 0 <= k < |parts| && stripped == parts
          ensures parts[k] != "" && Strip(parts[k]) == parts[k]
        {
          assert stripped[k] in stripped;
        }
      }
    }
  }

  // ---- Decimal numbers ----

  predicate IsDigit(c: char) { '0' <= c <= '9' }

  function Digit(c: char): nat
    requires IsDigit(c)
  {
    c as int - '0' as int
  }

  function DigitChar(d: nat): (c: char)
    requires d < 10
    ensures IsDigit(c) && Digit(c) == d
  {
    ('0' as int + d) as char
  }

  /** Digits, with single underscores between them. */
  predicate IsNumeral(s: string) {
    && s != "" && IsDigit(s[0]) && IsDigit(s[|s| - 1])
    && (forall k :: 0 <= k < |s| ==> IsDigit(s[k]) || s[k] == '_')
    && (forall k :: 0 < k < |s| && s[k] == '_' ==> s[k - 1] != '_')
  }

  function Value(s: string): nat {
    if s == "" then 0
    else
      var c := s[|s| - 1];
      if IsDigit(c) then 10 * Value(s[..|s| - 1]) + Digit(c) else Value(s[..|s| - 1])
  }

  /** Python's int(s, 10). */
  function ParseInt(s: string): Option<int> {
    var t := Strip(s);
    if t == "" then None
    else
      var body := if t[0] == '-' || t[0] == '+' then t[1..] else t;
      if !IsNumeral(body) then None
      else
        var n: int := if t[0] == '-' then 0 - Value(body) else Value(body);
        Some(n)
  }

  function PrintNat(n: nat): string {
    if n < 10 then [DigitChar(n)] else PrintNat(n / 10) + [DigitChar(n % 10)]
  }

  function PrintInt(n: int): string {
    if n < 0 then "-" + PrintNat(-n) else PrintNat(n)
  }

  predicate CanonicalNat(s: string) {
    s != "" && (forall k :: 0 <= k < |s| ==> IsDigit(s[k])) && (s[0] == '0' ==> s == "0")
  }

  /** Decimal digits without superfluous zeros, and a minus sign only in front of a negative number. */
  predicate Canonical(s: string) {
    CanonicalNat(s) || (s != "" && s[0] == '-' && CanonicalNat(s[1..]) && s[1..] != "0")
  }

  lemma {:induction false} PrintNatCanonical(n: nat)
    ensures CanonicalNat(PrintNat(n)) && Value(PrintNat(n)) == n && (n > 0 ==> PrintNat(n)[0] != '0')
  {
    if n < 10 {
      assert Value(PrintNat(n)[..0]) == 0;
      assert n > 0 ==> DigitChar(n) != DigitChar(0);
    } else {
      PrintNatCanonical(n / 10);
      var p := PrintNat(n / 10);
      assert PrintNat(n)[..|p|] == p;
      assert PrintNat(n)[0] == p[0];
    }
  }

  lemma {:induction false} PrintValue(s: string)
    requires CanonicalNat(s)
    ensures PrintNat(Value(s)) == s && (s[0] != '0' ==> Value(s) > 0)
  {
    var n := |s| - 1;
    var t := s[..n];
    assert s == t + [s[n]];
    if n > 0 {
      PrintValue(t);
      assert Value(s) == 10 * Value(t) + Digit(s[n]);
    } else {
      assert Value(t) == 0;
    }
  }

  lemma NumeralOfDigits(s: string)
    requires CanonicalNat(s)
    ensures IsNumeral(s) && !IsSpace(s[0]) && !IsSpace(s[|s| - 1]) && s[0] != '-' && s[0] != '+'
  {
  }

  lemma SurvivesNat(s: string)
    requires CanonicalNat(s)
    ensures ParseInt(s) == Some(Value(s)) && PrintInt(Value(s)) == s
  {
    NumeralOfDigits(s);
    PrintValue(s);
  }

  lemma ParseNegative(s: string)
    requires IsNumeral(s) && s != "" && !IsSpace(s[|s| - 1])
    ensures ParseInt("-" + s) == Some(0 - Value(s))
  {
    var t := "-" + s;
    assert t[0] == '-' && t[|t| - 1] == s[|s| - 1];
    assert Strip(t) == t;
    assert t[1..] == s;
  }

  lemma PrintNegative(n: nat)
    requires n > 0
    ensures PrintInt(0 - n) == "-" + PrintNat(n)
  {
  }

  lemma SurvivesNegative(s: string)
    requires CanonicalNat(s) && s[0] != '0'
    ensures ParseInt("-" + s) == Some(0 - Value(s)) && PrintInt(0 - Value(s)) == "-" + s
  {
    NumeralOfDigits(s);
    ParseNegative(s);
    PrintValue(s);
    PrintNegative(Value(s));
  }

  lemma PrintsCanonical(n: int)
    ensures Canonical(PrintInt(n))
  {
    if n < 0 {
      PrintNatCanonical(-n);
      assert PrintInt(n)[1..] == PrintNat(-n);
    } else {
      PrintNatCanonical(n);
    }
  }

  /** A number survives being read and printed exactly if it is in canonical form. */
  lemma NumberSurvivesExactly(s: string)
    ensures (ParseInt(s).Some? && PrintInt(ParseInt(s).value) == s) <==> Canonical(s)
  {
    if CanonicalNat(s) {
      SurvivesNat(s);
    } else if Canonical(s) {
      SurvivesNegative(s[1..]);
      assert s == "-" + s[1..];
    } else if ParseInt(s).Some? {
      PrintsCanonical(ParseInt(s).value);
    }
  }

  // ---- Searching ----

  predicate Contains(s: string, t: string) {
    |t| <= |s| && (s[..|t|] == t || (s != "" && Contains(s[1..], t)))
  }
}
