/** Decimal text as strconv and PostgreSQL read and write it. */
module Decimal {
  import opened Wrappers

  const TWO_63: nat := 0x8000_0000_0000_0000
  const TWO_64: nat := 0x1_0000_0000_0000_0000

  predicate IsDigit(c: char) { '0' <= c <= '9' }

  predicate AllDigits(s: string) { forall c :: c in s ==> IsDigit(c) }

  function DigitValue(c: char): nat
    requires IsDigit(c)
  {
    (c - '0') as nat
  }

  function Value(s: string): nat
    requires AllDigits(s)
  {
    if s == [] then 0 else 10 * Value(s[..|s| - 1]) + DigitValue(s[|s| - 1])
  }

  /** strconv.FormatUint(n, 10) */
  function Format(n: nat): string {
    if n < 10 then ['0' + n as char] else Format(n / 10) + ['0' + (n % 10) as char]
  }

  /** strconv.ParseUint(s, 10, 64) */
  function ParseUint(s: string): Option<nat> {
    if s == "" || !AllDigits(s) || Value(s) >= TWO_64 then None else Some(Value(s))
  }

  /** strconv.ParseInt(s, 10, 64) */
  function ParseInt(s: string): Option<int> {
    if s == "" then None
    else
      var signed := s[0] == '+' || s[0] == '-';
      var magnitude := ParseUint(if signed then s[1..] else s);
      if magnitude.None? then None
      else if s[0] == '-' then (if magnitude.value > TWO_63 then None else Some(0 - magnitude.value))
      else if magnitude.value >= TWO_63 then None
      else Some(magnitude.value)
  }

  lemma {:induction false} FormatRoundTrip(n: nat)
    ensures |Format(n)| > 0 && AllDigits(Format(n)) && Value(Format(n)) == n
  {
    if n >= 10 {
      FormatRoundTrip(n / 10);
      var s := Format(n);
      assert s[..|s| - 1] == Format(n / 10);
    } else {
      assert Format(n)[..0] == [];
    }
  }

  lemma FormatParses(n: nat)
    ensures n < TWO_64 ==> ParseUint(Format(n)) == Some(n)
    ensures n < TWO_63 ==> ParseInt(Format(n)) == Some(n)
    ensures n >= TWO_63 ==> ParseInt(Format(n)) == None
  {
    FormatRoundTrip(n);
    assert Format(n)[0] in Format(n);
  }
}

/** Resource versions: "12345" for a collection, "o5;12345" for an object taken from a watch. */
module ResourceVersion {
  import opened Wrappers
  import opened Decimal

  datatype RV = RV(objectVersion: int, watermark: nat)

  datatype Parsed = Ok(rv: RV) | Err

  function String(rv: RV): string {
    if rv.objectVersion > 0 then "o" + Format(rv.objectVersion) + ";" + Format(rv.watermark)
    else Format(rv.watermark)
  }

  /** strings.IndexByte; |s| when c does not occur. */
  function IndexOf(s: string, c: char): (i: nat)
    ensures i <= |s| && c !in s[..i] && (i < |s| ==> s[i] == c)
  {
    if s == "" || s[0] == c then 0 else 1 + IndexOf(s[1..], c)
  }

  function ParseWatermark(objectVersion: int, s: string): Parsed {
    if s != "" && s[0] == 'b' then Err  // the old bucket-based format
    else
      var w := ParseUint(s);
      if w.None? then Err else Ok(RV(objectVersion, w.value))
  }

  function Parse(s: string): Parsed {
    if s == "" then Ok(RV(0, 0))
    else if s[0] == 'o' then
      var semi := IndexOf(s, ';');
      if semi == |s| then Err
      else
        var v := ParseInt(s[1..semi]);
        if v.None? || s[semi + 1..] == "" then Err
        else ParseWatermark(v.value, s[semi + 1..])
    else ParseWatermark(0, s)
  }

  /** parseResourceVersion on the text of an object's resource version. */
  function ParseObjectVersion(s: string): Option<int> {
    if s == "" then Some(0)
    else if ParseInt(s).Some? then ParseInt(s)
    else
      var composite := Parse(s);
      if composite.Err? || composite.rv.objectVersion == 0 then None else Some(composite.rv.objectVersion)
  }

  lemma {:induction false} IndexOfFirst(a: string, c: char, b: string)
    requires c !in a
    ensures IndexOf(a + [c] + b, c) == |a|
  {
    if a != "" {
      assert (a + [c] + b)[1..] == a[1..] + [c] + b;
      IndexOfFirst(a[1..], c, b);
    }
  }

  lemma PartsOf(first: char, body: string, c: char, tail: string)
    ensures var s := [first] + body + [c] + tail;
      s[0] == first && |s| == |body| + |tail| + 2 && s[1..|body| + 1] == body && s[|body| + 2..] == tail
  {
    var s := [first] + body + [c] + tail;
    assert forall i :: 0 <= i < |body| ==> s[1 + i] == body[i];
    assert forall i :: 0 <= i < |tail| ==> s[|body| + 2 + i] == tail[i];
  }

  /** The parts of the composite form. */
  lemma CompositeParts(v: nat, w: nat)
    requires v > 0
    ensures var s := String(RV(v, w));
      && s[0] == 'o' && |s| == |Format(v)| + |Format(w)| + 2
      && IndexOf(s, ';') == |Format(v)| + 1
      && s[1..|Format(v)| + 1] == Format(v)
      && s[|Format(v)| + 2..] == Format(w)
  {
    FormatRoundTrip(v);
    PartsOf('o', Format(v), ';', Format(w));
    assert "o" == ['o'];
    IndexOfFirst(['o'] + Format(v), ';', Format(w));
  }

  lemma CompositeParses(v: nat, w: nat)
    requires 0 < v < TWO_63 && w < TWO_64
    ensures Parse(String(RV(v, w))) == Ok(RV(v, w))
    ensures ParseInt(String(RV(v, w))) == None
  {
    CompositeParts(v, w);
    FormatParses(v);
    FormatParses(w);
    FormatRoundTrip(w);
    assert Format(w)[0] in Format(w);
    assert 'o' in String(RV(v, w));
  }

  /**
   * Parse undoes String exactly for object versions that are not negative; a
   * negative one is printed as a collection version and lost.
   */
  lemma ParseUndoesString(rv: RV)
    requires rv.objectVersion < TWO_63 && rv.watermark < TWO_64
    ensures Parse(String(rv)) == Ok(rv) <==> rv.objectVersion >= 0
    ensures Parse(String(rv)).Ok? && Parse(String(rv)).rv.watermark == rv.watermark
  {
    if rv.objectVersion > 0 {
      CompositeParses(rv.objectVersion, rv.watermark);
    } else {
      FormatParses(rv.watermark);
      FormatRoundTrip(rv.watermark);
      assert Format(rv.watermark)[0] in Format(rv.watermark);
    }
  }

  /**
   * What Parse accepts, text by text: nothing, a 64-bit watermark, or an object version
   * and a watermark in the composite form; everything else is refused.
   */
  lemma ParseExactly(s: string, v: string, w: string)
    ensures s == "" ==> Parse(s) == Ok(RV(0, 0))
    ensures s != "" && s[0] != 'o' ==> Parse(s) == if ParseUint(s).Some? then Ok(RV(0, ParseUint(s).value)) else Err
    ensures s != "" && s[0] == 'o' && ';' !in s ==> Parse(s) == Err
    ensures s == "o" + v + ";" + w && ';' !in v ==>
      Parse(s) == if ParseInt(v).Some? && ParseUint(w).Some? then Ok(RV(ParseInt(v).value, ParseUint(w).value)) else Err
  {
    if s == "o" + v + ";" + w && ';' !in v {
      CompositeSplits(v, w);
      BucketsAreNoNumbers(w);
    } else {
      BucketsAreNoNumbers(s);
    }
  }

  lemma CompositeSplits(v: string, w: string)
    requires ';' !in v
    ensures var s := "o" + v + ";" + w;
      s[0] == 'o' && IndexOf(s, ';') == |v| + 1 && s[1..|v| + 1] == v && s[|v| + 2..] == w && |s| == |v| + |w| + 2
  {
    PartsOf('o', v, ';', w);
    assert "o" == ['o'] && ";" == [';'];
    IndexOfFirst(['o'] + v, ';', w);
  }

  lemma BucketsAreNoNumbers(s: string)
    ensures s == "" || s[0] == 'b' ==> ParseUint(s).None?
  {
    assert s != "" ==> s[0] in s;
  }

  /** Writers read a composite version exactly when both parts parse and the object version is not zero. */
  lemma ObjectVersionExactly(v: string, w: string)
    requires ';' !in v
    ensures var s := "o" + v + ";" + w;
      ParseObjectVersion(s) == if ParseInt(v).Some? && ParseInt(v).value != 0 && ParseUint(w).Some? then ParseInt(v) else None
  {
    var s := "o" + v + ";" + w;
    ParseExactly(s, v, w);
    CompositeSplits(v, w);
    assert s[0] in s && !IsDigit('o');
  }

  /**
   * Writers recover the object version from a plain version (Get and List set it)
   * and from a composite one (watch events carry it).  A collection version is
   * taken for an object version whenever it fits in 63 bits.
   */
  lemma WritersRecoverTheVersion(v: nat, w: nat)
    requires v < TWO_63 && w < TWO_64
    ensures ParseObjectVersion(Format(v)) == Some(v)
    ensures v > 0 ==> ParseObjectVersion(String(RV(v, w))) == Some(v)
    ensures ParseObjectVersion(String(RV(0, w))) == (if w < TWO_63 then Some(w) else None)
  {
    FormatParses(v);
    FormatParses(w);
    FormatRoundTrip(v);
    FormatRoundTrip(w);
    assert Format(w)[0] in Format(w);
    if v > 0 { CompositeParses(v, w); }
  }
}
