/** Value codec of the EAV engine: how an attribute's text form and type tag
    are produced on the write paths and turned back into a typed value on the
    read paths. */
module Values {

  datatype Option<+T> = None | Some(value: T)

  /** The result of a successful time parse. The parse itself (a library call
      with a fixed layout) is an opaque partial function supplied by the
      caller; only its outcome is represented. */
  datatype Timestamp = Timestamp(unixSeconds: int)

  /** A decoded attribute value: the dynamic types a logical record holds. */
  datatype Value = IntV(i: int) | BoolV(b: bool) | StrV(s: string) | TimeV(t: Timestamp)

  /** A read-back record: attribute name to decoded value. */
  type Record = map<string, Value>

  const MinInt64: int := -0x8000_0000_0000_0000
  const MaxInt64: int := 0x7FFF_FFFF_FFFF_FFFF
  const MaxUint64: int := 0xFFFF_FFFF_FFFF_FFFF

  predicate IsDigit(c: char) { '0' <= c <= '9' }

  function DigitValue(c: char): nat
    requires IsDigit(c)
  {
    c as int - '0' as int
  }

  function DigitChar(d: nat): (c: char)
    requires d < 10
    ensures IsDigit(c) && DigitValue(c) == d
  {
    ('0' as int + d) as char
  }

  // ---------------------------------------------------------------------------
  // Integer text: Go's decimal formatting and strconv.Atoi
  // ---------------------------------------------------------------------------

  /** Decimal digits of a natural number, most significant first. */
  function NatToText(n: nat): (s: string)
    ensures |s| > 0 && forall i :: 0 <= i < |s| ==> IsDigit(s[i])
  {
    if n < 10 then [DigitChar(n)] else NatToText(n / 10) + [DigitChar(n % 10)]
  }

  /** The `%v` / `%d` form of an integer. */
  function IntToText(n: int): (s: string)
    ensures |s| > 0
    ensures n >= 0 ==> IsDigit(s[0])
    ensures n < 0 ==> s[0] == '-'
  {
    if n >= 0 then NatToText(n) else "-" + NatToText(-n)
  }

  /** Outcome of scanning unsigned decimal digits with 64-bit overflow
      detection, as strconv.ParseUint does. */
  datatype UintScan = Digits(n: nat) | SyntaxErr | RangeErr

  function ScanDigits(s: string, acc: nat): UintScan
    requires acc <= MaxUint64
  {
    if s == [] then Digits(acc)
    else if !IsDigit(s[0]) then SyntaxErr
    else
      var n := acc * 10 + DigitValue(s[0]);
      if n > MaxUint64 then RangeErr else ScanDigits(s[1..], n)
  }

  function ParseUint(s: string): UintScan
  {
    if s == [] then SyntaxErr else ScanDigits(s, 0)
  }

  /** The digits strconv.Atoi scans: the text after one optional leading
      sign. */
  function Unsigned(s: string): (u: string)
    ensures |u| <= |s|
  {
    if s != [] && (s[0] == '-' || s[0] == '+') then s[1..] else s
  }

  /** Text strconv.Atoi rejects with a syntax error before any overflow can
      be met: nothing but an optional sign, or a character that is not a
      digit among the first 19 after the sign. */
  predicate NonNumeric(s: string)
  {
    Unsigned(s) == [] || exists k :: 0 <= k < |Unsigned(s)| && k < 19 && !IsDigit(Unsigned(s)[k])
  }

  /** strconv.Atoi: the parsed value and whether no error was reported.
      A syntax error yields 0; an out-of-range value yields the nearest
      64-bit bound, also with an error. */
  datatype AtoiResult = AtoiResult(n: int, ok: bool)

  function Atoi(s: string): (r: AtoiResult)
    ensures MinInt64 <= r.n <= MaxInt64
    ensures !r.ok ==> r.n in {0, MinInt64, MaxInt64}
    ensures !r.ok && r.n == MaxInt64 ==> s != [] && s[0] != '-'
    ensures !r.ok && r.n == MinInt64 ==> s != [] && s[0] == '-'
  {
    if s == [] then AtoiResult(0, false)
    else
      var neg := s[0] == '-';
      match ParseUint(Unsigned(s))
      case SyntaxErr => AtoiResult(0, false)
      case RangeErr => if neg then AtoiResult(MinInt64, false) else AtoiResult(MaxInt64, false)
      case Digits(u) =>
        if !neg && u > MaxInt64 then AtoiResult(MaxInt64, false)
        else if neg && u > -MinInt64 then AtoiResult(MinInt64, false)
        else var v: int := u; AtoiResult(if neg then -v else v, true)
  }

  /** Appending one character to digits scanned so far: an error already met
      is kept, otherwise the character is scanned next. */
  lemma {:induction false} ScanDigitsSnoc(p: string, c: char, acc: nat)
    requires acc <= MaxUint64
    ensures ScanDigits(p + [c], acc) ==
      match ScanDigits(p, acc)
      case Digits(m) =>
        if !IsDigit(c) then SyntaxErr
        else if m * 10 + DigitValue(c) > MaxUint64 then RangeErr
        else Digits(m * 10 + DigitValue(c))
      case other => other
  {
    if p == [] {
      assert p + [c] == [c];
      assert [c][1..] == [];
    } else {
      assert (p + [c])[0] == p[0];
      assert (p + [c])[1..] == p[1..] + [c];
      if IsDigit(p[0]) && acc * 10 + DigitValue(p[0]) <= MaxUint64 {
        ScanDigitsSnoc(p[1..], c, acc * 10 + DigitValue(p[0]));
      }
    }
  }

  lemma {:induction false} ScanNatToText(n: nat)
    requires n <= MaxUint64
    ensures ScanDigits(NatToText(n), 0) == Digits(n)
  {
    if n < 10 {
      assert NatToText(n) == [DigitChar(n)];
      assert [DigitChar(n)][1..] == [];
    } else {
      ScanNatToText(n / 10);
      ScanDigitsSnoc(NatToText(n / 10), DigitChar(n % 10), 0);
    }
  }

  /** Round trip of the integer codec: the decimal text of any 64-bit integer
      parses back to that integer without error. */
  lemma AtoiIntToText(n: int)
    requires MinInt64 <= n <= MaxInt64
    ensures Atoi(IntToText(n)) == AtoiResult(n, true)
  {
    var s := IntToText(n);
    if n >= 0 {
      ScanNatToText(n);
    } else {
      assert s[1..] == NatToText(-n);
      ScanNatToText(-n);
    }
  }

  /** Digits of a number beyond 64 bits overflow during the scan. */
  lemma {:induction false} ScanNatToTextBig(n: nat)
    requires n > MaxUint64
    ensures ScanDigits(NatToText(n), 0) == RangeErr
  {
    ScanDigitsSnoc(NatToText(n / 10), DigitChar(n % 10), 0);
    if n / 10 > MaxUint64 {
      ScanNatToTextBig(n / 10);
    } else {
      ScanNatToText(n / 10);
    }
  }

  /** Range clamping: the decimal text of a value above the 64-bit range
      parses to the largest int64, and with a leading '-' to the smallest,
      each with an error. */
  lemma AtoiClamp(n: nat)
    ensures n > MaxInt64 ==> Atoi(NatToText(n)) == AtoiResult(MaxInt64, false)
    ensures n > -MinInt64 ==> Atoi("-" + NatToText(n)) == AtoiResult(MinInt64, false)
  {
    var s := NatToText(n);
    var neg := "-" + s;
    assert Unsigned(s) == s;
    assert neg[0] == '-' && neg[1..] == s;
    assert Unsigned(neg) == s;
    if n > MaxUint64 {
      ScanNatToTextBig(n);
    } else {
      ScanNatToText(n);
    }
  }

  /** A non-digit anywhere in the text keeps the digit scan from yielding a
      number: it ends in a syntax or a range error. */
  lemma {:induction false} ScanRejectsNonDigit(s: string, acc: nat, k: nat)
    requires acc <= MaxUint64
    requires k < |s| && !IsDigit(s[k])
    ensures forall m :: ScanDigits(s, acc) != Digits(m)
  {
    if IsDigit(s[0]) && acc * 10 + DigitValue(s[0]) <= MaxUint64 {
      ScanRejectsNonDigit(s[1..], acc * 10 + DigitValue(s[0]), k - 1);
    }
  }

  /** Non-numeric text (the empty text, a lone sign, or a non-digit among
      the first 19 characters after an optional sign) makes Atoi report a
      syntax error, so the decoder keeps 0. */
  lemma AtoiNonNumeric(s: string)
    requires NonNumeric(s)
    ensures Atoi(s) == AtoiResult(0, false)
  {
    var body := Unsigned(s);
    if body != [] {
      var k :| 0 <= k < |body| && k < 19 && !IsDigit(body[k]);
      var k0 := FirstNonDigit(body, k);
      assert Pow10(0) == 1;
      ScanSyntax(body, 0, k0, 0);
    }
  }

  /** The first non-digit of a text that has one. */
  lemma {:induction false} FirstNonDigit(s: string, k: nat) returns (k0: nat)
    requires k < |s| && !IsDigit(s[k])
    ensures k0 <= k && !IsDigit(s[k0])
    ensures forall j :: 0 <= j < k0 ==> IsDigit(s[j])
    decreases k
  {
    if j :| 0 <= j < k && !IsDigit(s[j]) {
      k0 := FirstNonDigit(s, j);
    } else {
      k0 := k;
    }
  }

  /** Scanning at most 19 digits before a non-digit never overflows, so the
      scan ends in a syntax error. */
  lemma {:induction false} ScanSyntax(s: string, acc: nat, k: nat, d: nat)
    requires k < |s| && !IsDigit(s[k])
    requires forall j :: 0 <= j < k ==> IsDigit(s[j])
    requires acc < Pow10(d) && d + k <= 19
    ensures acc <= MaxUint64 && ScanDigits(s, acc) == SyntaxErr
  {
    AccBound(acc, d);
    if k > 0 {
      assert IsDigit(s[0]);
      ScanBound(acc, DigitValue(s[0]), d);
      ScanDigitsStep(s, acc);
      assert (s[1..])[k - 1] == s[k];
      ScanSyntax(s[1..], acc * 10 + DigitValue(s[0]), k - 1, d + 1);
    } else {
      assert !IsDigit(s[0]);
    }
  }

  lemma AccBound(acc: nat, d: nat)
    requires acc < Pow10(d) && d <= 19
    ensures acc <= MaxUint64
  {
    Pow10Le(d, 19);
  }

  lemma ScanBound(acc: nat, v: nat, d: nat)
    requires acc < Pow10(d) && v < 10 && d < 19
    ensures acc * 10 + v < Pow10(d + 1) && acc * 10 + v <= MaxUint64
  {
    assert acc + 1 <= Pow10(d);
    assert (acc + 1) * 10 <= Pow10(d) * 10;
    Pow10Le(d + 1, 19);
  }

  lemma ScanDigitsStep(s: string, acc: nat)
    requires acc <= MaxUint64 && s != [] && IsDigit(s[0]) && acc * 10 + DigitValue(s[0]) <= MaxUint64
    ensures ScanDigits(s, acc) == ScanDigits(s[1..], acc * 10 + DigitValue(s[0]))
  {
  }

  function Pow10(e: nat): (p: nat)
    ensures p >= 1
  {
    if e == 0 then 1 else 10 * Pow10(e - 1)
  }

  lemma {:induction false} Pow10Le(a: nat, b: nat)
    requires a <= b
    ensures Pow10(a) <= Pow10(b)
    ensures b == 19 ==> Pow10(b) <= MaxUint64
  {
    if a < b {
      Pow10Le(a, b - 1);
    }
    if b == 19 {
      assert Pow10(1) == 10;
      assert Pow10(2) == 100;
      assert Pow10(3) == 1000;
      assert Pow10(4) == 10000;
      assert Pow10(5) == 100000;
      assert Pow10(6) == 1000000;
      assert Pow10(7) == 10000000;
      assert Pow10(8) == 100000000;
      assert Pow10(9) == 1000000000;
      assert Pow10(10) == 10000000000;
      assert Pow10(11) == 100000000000;
      assert Pow10(12) == 1000000000000;
      assert Pow10(13) == 10000000000000;
      assert Pow10(14) == 100000000000000;
      assert Pow10(15) == 1000000000000000;
      assert Pow10(16) == 10000000000000000;
      assert Pow10(17) == 100000000000000000;
      assert Pow10(18) == 1000000000000000000;
      assert Pow10(19) == 10000000000000000000;
    }
  }

  // ---------------------------------------------------------------------------
  // Text replacement used before the time parse
  // ---------------------------------------------------------------------------

  /** The zone suffix stripped from stored time text. */
  const UtcSuffix: string := " +0000 UTC"

  /** True when `pat` occurs in `s` at position `i`. */
  predicate OccursAt(s: string, pat: string, i: nat)
  {
    i + |pat| <= |s| && s[i..i + |pat|] == pat
  }

  /** strings.ReplaceAll(s, pat, ""): every non-overlapping occurrence of
      `pat`, scanning left to right, is removed. */
  function RemoveAll(s: string, pat: string): (r: string)
    requires |pat| > 0
    ensures |r| <= |s|
  {
    if |s| < |pat| then s
    else if s[..|pat|] == pat then RemoveAll(s[|pat|..], pat)
    else [s[0]] + RemoveAll(s[1..], pat)
  }

  /** Text with no occurrence of the pattern is left unchanged. */
  lemma {:induction false} RemoveAllAbsent(s: string, pat: string)
    requires |pat| > 0
    requires forall i :: 0 <= i <= |s| ==> !OccursAt(s, pat, i)
    ensures RemoveAll(s, pat) == s
  {
    if |s| >= |pat| {
      assert !OccursAt(s, pat, 0);
      assert s[0..|pat|] == s[..|pat|];
      forall i | 0 <= i <= |s[1..]|
        ensures !OccursAt(s[1..], pat, i)
      {
        assert !OccursAt(s, pat, i + 1);
        if i + |pat| <= |s[1..]| {
          assert s[1..][i..i + |pat|] == s[i + 1..i + 1 + |pat|];
        }
      }
      RemoveAllAbsent(s[1..], pat);
      assert s == [s[0]] + s[1..];
    }
  }

  /** One trailing occurrence of the pattern is removed, and nothing else,
      when no occurrence starts inside the text before it. */
  lemma {:induction false} RemoveAllTrailing(t: string, pat: string)
    requires |pat| > 0
    requires forall i :: 0 <= i < |t| ==> !OccursAt(t + pat, pat, i)
    ensures RemoveAll(t + pat, pat) == t
  {
    var s := t + pat;
    if t == [] {
      assert s == pat && s[..|pat|] == pat && s[|pat|..] == [];
    } else {
      assert !OccursAt(s, pat, 0);
      assert s[0..|pat|] == s[..|pat|];
      assert s[0] == t[0] && s[1..] == t[1..] + pat;
      forall i | 0 <= i < |t[1..]|
        ensures !OccursAt(t[1..] + pat, pat, i)
      {
        assert !OccursAt(s, pat, i + 1);
        if i + |pat| <= |s[1..]| {
          assert s[1..][i..i + |pat|] == s[i + 1..i + 1 + |pat|];
        }
      }
      RemoveAllTrailing(t[1..], pat);
      assert t == [t[0]] + t[1..];
    }
  }

  /** The time text a reader receives: the stored text ends in the zone
      suffix once; stripping it gives back the text before it, provided that
      text does not itself contain the suffix. The suffix overlaps no proper
      prefix of itself, so no occurrence can straddle the boundary. */
  lemma StripUtcSuffix(t: string)
    requires forall i :: 0 <= i <= |t| ==> !OccursAt(t, UtcSuffix, i)
    ensures RemoveAll(t + UtcSuffix, UtcSuffix) == t
  {
    forall i | 0 <= i < |t|
      ensures !OccursAt(t + UtcSuffix, UtcSuffix, i)
    {
      if i + |UtcSuffix| <= |t| {
        OccursInside(t, UtcSuffix, i);
      } else {
        UtcNoStraddle(t, i);
      }
    }
    RemoveAllTrailing(t, UtcSuffix);
  }

  lemma OccursInside(t: string, pat: string, i: nat)
    requires i + |pat| <= |t|
    ensures OccursAt(t + pat, pat, i) == OccursAt(t, pat, i)
  {
    assert (t + pat)[i..i + |pat|] == t[i..i + |pat|];
  }

  lemma UtcNoStraddle(t: string, i: nat)
    requires i < |t| < i + |UtcSuffix|
    ensures !OccursAt(t + UtcSuffix, UtcSuffix, i)
  {
    var s := t + UtcSuffix;
    var d := |t| - i;
    if OccursAt(s, UtcSuffix, i) {
      var w := s[i..i + |UtcSuffix|];
      assert w[d] == s[|t|] == UtcSuffix[0];
      UtcBlank(d);
    }
  }

  lemma UtcBlank(d: nat)
    requires 0 < d < |UtcSuffix| && UtcSuffix[d] == ' '
    ensures d == 6 && UtcSuffix[d + 1] != UtcSuffix[1]
  {
  }

  // ---------------------------------------------------------------------------
  // Type tags on the write paths
  // ---------------------------------------------------------------------------

  /** The tag MapInsert and MapAryInsert store: the three numeric kinds a
      dynamic caller may hand over are normalised to "int", every other type
      name is stored verbatim. */
  function InsertTag(typeName: string): (tag: string)
    ensures tag == "int" <==> typeName in {"float64", "int64", "json.Number", "int"}
    ensures typeName !in {"float64", "int64", "json.Number"} ==> tag == typeName
  {
    if typeName == "float64" || typeName == "int64" || typeName == "json.Number" then "int"
    else typeName
  }

  /** The tag MapUpdate stores for an attribute it has to insert: only
      "json.Number" is normalised; "float64" and "int64" keep their names. */
  function UpdateTag(typeName: string): (tag: string)
    ensures tag == "int" <==> typeName in {"json.Number", "int"}
    ensures typeName != "json.Number" ==> tag == typeName
  {
    if typeName == "json.Number" then "int" else typeName
  }

  // ---------------------------------------------------------------------------
  // Decoding on the read paths
  // ---------------------------------------------------------------------------

  /** The tags that select the time parse. `qualified` says whether the
      reader also recognises "time.Time" (Get does, Gets and GetsByFilter do
      not). */
  predicate IsTimeTag(typ: string, qualified: bool)
  {
    typ == "Time" || (qualified && typ == "time.Time")
  }

  /** Decodes one stored (Val, Typ) pair. None means the attribute is left
      out of the record (a failed time parse). */
  function Decode(val: string, typ: string, qualified: bool,
                  parseTime: string -> Option<Timestamp>): (r: Option<Value>)
  {
    if typ == "int" || typ == "int64" then Some(IntV(Atoi(val).n))
    else if typ == "bool" then Some(BoolV(val == "true"))
    else if typ == "string" then Some(StrV(val))
    else if IsTimeTag(typ, qualified) then
      match parseTime(RemoveAll(val, UtcSuffix))
      case None => None
      case Some(t) => Some(TimeV(t))
    else Some(StrV(val))
  }

  /** The decode case table, stated for every tag at once: an attribute is
      dropped exactly when it has a time tag and its text, without the zone
      suffix, does not parse, and a parsed time is kept as a time; integer
      tags never yield a value outside 64 bits and yield 0 on non-numeric
      text; "bool" is exact string equality with "true"; every other tag
      keeps the raw text. */
  lemma DecodeTable(val: string, typ: string, qualified: bool,
                    parseTime: string -> Option<Timestamp>)
    ensures Decode(val, typ, qualified, parseTime).None? <==>
              IsTimeTag(typ, qualified) && parseTime(RemoveAll(val, UtcSuffix)).None?
    ensures IsTimeTag(typ, qualified) ==>
              Decode(val, typ, qualified, parseTime) ==
                match parseTime(RemoveAll(val, UtcSuffix))
                case None => None
                case Some(t) => Some(TimeV(t))
    ensures typ in {"int", "int64"} ==>
              Decode(val, typ, qualified, parseTime) == Some(IntV(Atoi(val).n)) &&
              MinInt64 <= Atoi(val).n <= MaxInt64
    ensures typ in {"int", "int64"} && NonNumeric(val) ==>
              Decode(val, typ, qualified, parseTime) == Some(IntV(0))
    ensures typ == "bool" ==>
              Decode(val, typ, qualified, parseTime) == Some(BoolV(val == "true"))
    ensures typ !in {"int", "int64", "bool"} && !IsTimeTag(typ, qualified) ==>
              Decode(val, typ, qualified, parseTime) == Some(StrV(val))
  {
    if NonNumeric(val) {
      AtoiNonNumeric(val);
    }
  }

  /** "time.Time" is a time tag only for the reader that recognises it; the
      list readers treat it as an unknown tag and keep the raw text. */
  lemma QualifiedTimeTag(val: string, parseTime: string -> Option<Timestamp>)
    ensures Decode(val, "time.Time", false, parseTime) == Some(StrV(val))
    ensures Decode(val, "time.Time", true, parseTime) == Decode(val, "Time", false, parseTime)
  {
  }

  /** A native value as the write paths see it: the text `%v` produces and
      the type name reflection reports. */
  function Format(v: Value): (f: (string, string))
    requires !v.TimeV?
  {
    match v
    case IntV(i) => (IntToText(i), "int")
    case BoolV(b) => (if b then "true" else "false", "bool")
    case StrV(s) => (s, "string")
  }

  /** Round trip of the codec for integers, booleans and strings, with either
      reader and after either write-side tag rule. */
  lemma DecodeFormat(v: Value, qualified: bool, parseTime: string -> Option<Timestamp>)
    requires !v.TimeV?
    requires v.IntV? ==> MinInt64 <= v.i <= MaxInt64
    ensures Decode(Format(v).0, InsertTag(Format(v).1), qualified, parseTime) == Some(v)
    ensures Decode(Format(v).0, UpdateTag(Format(v).1), qualified, parseTime) == Some(v)
  {
    if v.IntV? {
      AtoiIntToText(v.i);
    }
  }
}
