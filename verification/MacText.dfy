/** MAC addresses as text: format_mac, the three formats of get_mac_addr, and the classifier is_mac_addr. */
module MacText {
  import opened Arp
  import opened Seqs
  import opened Wrappers

  // ----- hexadecimal fields

  predicate IsHex(c: char) {
    '0' <= c <= '9' || 'a' <= c <= 'f' || 'A' <= c <= 'F'
  }

  predicate AllHex(s: string) {
    forall i :: 0 <= i < |s| ==> IsHex(s[i])
  }

  function HexValue(c: char): (v: nat)
    requires IsHex(c)
    ensures v < 16
  {
    if c <= '9' then c as int - '0' as int
    else if c <= 'F' then c as int - 'A' as int + 10
    else c as int - 'a' as int + 10
  }

  function Value(s: string): nat
    requires AllHex(s)
  {
    if s == "" then 0 else 16 * Value(Init(s)) + HexValue(Last(s))
  }

  function HexDigit(v: nat): (c: char)
    requires v < 16
    ensures IsHex(c) && HexValue(c) == v
  {
    if v < 10 then ('0' as int + v) as char else ('a' as int + v - 10) as char
  }

  /** "%.2x" */
  function Hex2(b: byte): (s: string)
    ensures |s| == 2 && AllHex(s) && Value(s) == b as int
  {
    var s := [HexDigit(b as int / 16), HexDigit(b as int % 16)];
    assert Init(s) == [s[0]] && Value(Init(s)) == 16 * Value(Init(Init(s))) + HexValue(s[0]);
    s
  }

  // ----- sscanf, for hexadecimal conversions and literal characters

  datatype Directive = Hex(width: nat) | Lit(c: char)  // width 0 is no width

  const COLON_FORMAT :=
    [Hex(0), Lit(':'), Hex(0), Lit(':'), Hex(0), Lit(':'), Hex(0), Lit(':'), Hex(0), Lit(':'), Hex(0)]
  const CISCO_FORMAT := [Hex(2), Hex(0), Lit('.'), Hex(2), Hex(0), Lit('.'), Hex(2), Hex(0)]
  const DASH_FORMAT :=
    [Hex(0), Lit('-'), Hex(0), Lit('-'), Hex(0), Lit('-'), Hex(0), Lit('-'), Hex(0), Lit('-'), Hex(0)]

  /** How many leading digits a conversion takes. */
  function Digits(s: string, width: nat): (n: nat)
    ensures n <= |s| && AllHex(s[..n])
    decreases |s|
  {
    if s == "" || !IsHex(s[0]) then 0
    else if width == 1 then 1
    else
      var n := Digits(s[1..], if width == 0 then 0 else width - 1);
      assert s[..n + 1] == [s[0]] + s[1..][..n];
      n + 1
  }

  /** The values assigned before the first mismatch; sscanf returns their number. */
  function Scan(s: string, fmt: seq<Directive>): seq<nat>
    decreases |fmt|
  {
    if fmt == [] then []
    else
      match fmt[0]
      case Lit(c) => if s != "" && s[0] == c then Scan(s[1..], fmt[1..]) else []
      case Hex(width) =>
        var n := Digits(s, width);
        if n == 0 then [] else [Value(s[..n])] + Scan(s[n..], fmt[1..])
  }

  function Bytes(ns: seq<nat>): Mac
    requires |ns| == 6
  {
    seq(6, i requires 0 <= i < 6 => (ns[i] % 256) as byte)
  }

  /** The first format that converts six fields gives the address. */
  function Parse(s: string): Option<Mac> {
    if |Scan(s, COLON_FORMAT)| == 6 then Some(Bytes(Scan(s, COLON_FORMAT)))
    else if |Scan(s, CISCO_FORMAT)| == 6 then Some(Bytes(Scan(s, CISCO_FORMAT)))
    else if |Scan(s, DASH_FORMAT)| == 6 then Some(Bytes(Scan(s, DASH_FORMAT)))
    else None
  }

  /** get_mac_addr: the output is written only after a format has converted all six fields. */
  method GetMacAddr(s: string, out: array<byte>) returns (ok: bool)
    requires out.Length == 6
    modifies out
    ensures ok == Parse(s).Some?
    ensures if ok then out[..] == Parse(s).value else out[..] == old(out[..])
  {
    hide Scan;
    var formats := [COLON_FORMAT, CISCO_FORMAT, DASH_FORMAT];
    var c := 0;
    while c < |formats|
      invariant 0 <= c <= 3 && out[..] == old(out[..])
      invariant forall k :: 0 <= k < c ==> |Scan(s, formats[k])| != 6
    {
      var n := Scan(s, formats[c]);
      if |n| == 6 {
        WriteBytes(n, out);
        assert c == 1 || c == 2 ==> |Scan(s, formats[0])| != 6;
        assert c == 2 ==> |Scan(s, formats[1])| != 6;
        return true;
      }
      c := c + 1;
    }
    assert |Scan(s, formats[0])| != 6 && |Scan(s, formats[1])| != 6 && |Scan(s, formats[2])| != 6;
    return false;
  }

  method WriteBytes(n: seq<nat>, out: array<byte>)
    requires out.Length == |n| == 6
    modifies out
    ensures out[..] == Bytes(n)
  {
    var c := 0;
    while c < 6
      invariant 0 <= c <= 6
      invariant forall k :: 0 <= k < c ==> out[k] == (n[k] % 256) as byte
    {
      out[c] := (n[c] % 256) as byte;
      c := c + 1;
    }
  }

  // ----- spellings

  function Join(fields: seq<string>, sep: char): string
    requires fields != []
  {
    if |fields| == 1 then fields[0] else fields[0] + [sep] + Join(fields[1..], sep)
  }

  predicate HexFields(fields: seq<string>) {
    forall i :: 0 <= i < |fields| ==> fields[i] != "" && AllHex(fields[i])
  }

  function Values(fields: seq<string>): seq<nat>
    requires HexFields(fields)
  {
    seq(|fields|, i requires 0 <= i < |fields| => Value(fields[i]))
  }

  /** format_mac */
  function FormatMac(m: Mac): string {
    Join(Pairs(m), ':')
  }

  function Pairs(m: Mac): (fields: seq<string>)
    ensures |fields| == 6 && HexFields(fields) && Bytes(Values(fields)) == m
  {
    seq(6, i requires 0 <= i < 6 => Hex2(m[i]))
  }

  lemma {:induction false} DigitsOfField(d: string, rest: string, width: nat)
    requires AllHex(d) && (rest == "" || !IsHex(rest[0]))
    ensures Digits(d + rest, width) == if width == 0 || |d| <= width then |d| else width
    decreases |d|
  {
    if d == "" {
      assert d + rest == rest;
    } else {
      assert (d + rest)[1..] == d[1..] + rest;
      if width != 1 { DigitsOfField(d[1..], rest, if width == 0 then 0 else width - 1); }
    }
  }

  lemma ScanHex(s: string, n: nat, fmt: seq<Directive>)
    requires fmt != [] && fmt[0].Hex? && n == Digits(s, fmt[0].width)
    ensures Scan(s, fmt) == if n == 0 then [] else [Value(s[..n])] + Scan(s[n..], fmt[1..])
  {
    hide Value, Digits;
  }

  /** One unlimited conversion takes one field. */
  lemma ScanField(d: string, rest: string, fmt: seq<Directive>)
    requires d != "" && AllHex(d) && (rest == "" || !IsHex(rest[0]))
    requires fmt != [] && fmt[0] == Hex(0)
    ensures Scan(d + rest, fmt) == [Value(d)] + Scan(rest, fmt[1..])
  {
    hide Value, Scan, Digits;
    DigitsOfField(d, rest, 0);
    ScanHex(d + rest, |d|, fmt);
    assert (d + rest)[..|d|] == d && (d + rest)[|d|..] == rest;
  }

  lemma ScanLit(c: char, rest: string, fmt: seq<Directive>)
    requires fmt != [] && fmt[0].Lit?
    ensures Scan([c] + rest, fmt) == if c == fmt[0].c then Scan(rest, fmt[1..]) else []
  {
    hide Digits;
    assert ([c] + rest)[1..] == rest;
  }

  /** The format of n unlimited fields. */
  function Fields(n: nat, sep: char): seq<Directive>
    requires n > 0
  {
    if n == 1 then [Hex(0)] else [Hex(0), Lit(sep)] + Fields(n - 1, sep)
  }

  lemma FieldsStep(n: nat, sep: char)
    requires n > 1
    ensures var f := Fields(n, sep);
            |f| >= 2 && f[0] == Hex(0) && f[1] == Lit(sep) && f[2..] == Fields(n - 1, sep)
  {
  }

  lemma JoinStep(fields: seq<string>, sep: char)
    requires |fields| > 1
    ensures Join(fields, sep) == fields[0] + ([sep] + Join(fields[1..], sep))
  {
  }

  lemma ValuesStep(fields: seq<string>)
    requires fields != [] && HexFields(fields)
    ensures fields[0] != "" && AllHex(fields[0]) && HexFields(fields[1..])
    ensures Values(fields) == [Value(fields[0])] + Values(fields[1..])
  {
    hide Value;
  }

  lemma ScanFieldAndLit(d: string, c: char, rest: string, fmt: seq<Directive>)
    requires d != "" && AllHex(d) && !IsHex(c) && |fmt| >= 2 && fmt[0] == Hex(0) && fmt[1] == Lit(c)
    ensures Scan(d + ([c] + rest), fmt) == [Value(d)] + Scan(rest, fmt[2..])
  {
    hide Scan, Value, AllHex, IsHex;
    ScanField(d, [c] + rest, fmt);
    ScanLit(c, rest, fmt[1..]);
    assert fmt[1..][1..] == fmt[2..];
  }

  lemma {:induction false} ScanJoined(fields: seq<string>, sep: char)
    requires fields != [] && HexFields(fields) && !IsHex(sep)
    ensures Scan(Join(fields, sep), Fields(|fields|, sep)) == Values(fields)
    decreases |fields|
  {
    hide Scan, Value, Fields, Join, Values, HexFields, AllHex, IsHex;
    if |fields| == 1 {
      ScanOneField(fields, sep);
    } else {
      ValuesStep(fields);
      JoinStep(fields, sep);
      FieldsStep(|fields|, sep);
      ScanFieldAndLit(fields[0], sep, Join(fields[1..], sep), Fields(|fields|, sep));
      ScanJoined(fields[1..], sep);
    }
  }

  lemma ScanOneField(fields: seq<string>, sep: char)
    requires |fields| == 1 && HexFields(fields)
    ensures Scan(Join(fields, sep), Fields(1, sep)) == Values(fields)
  {
    hide Scan, Value;
    assert fields[0] + "" == fields[0] && Fields(1, sep)[1..] == [];
    ScanField(fields[0], "", Fields(1, sep));
    ScanNothing("");
  }

  lemma ScanNothing(s: string)
    ensures Scan(s, []) == []
  {
  }

  lemma FormatsAreFields()
    ensures COLON_FORMAT == Fields(6, ':') && DASH_FORMAT == Fields(6, '-')
  {
    FieldsUnrolled(':');
    FieldsUnrolled('-');
  }

  lemma FieldsUnrolled(sep: char)
    ensures Fields(6, sep)
         == [Hex(0), Lit(sep), Hex(0), Lit(sep), Hex(0), Lit(sep), Hex(0), Lit(sep), Hex(0), Lit(sep), Hex(0)]
  {
    assert Fields(2, sep) == [Hex(0), Lit(sep), Hex(0)];
    assert Fields(4, sep) == [Hex(0), Lit(sep)] + ([Hex(0), Lit(sep)] + Fields(2, sep));
    assert Fields(6, sep) == [Hex(0), Lit(sep)] + ([Hex(0), Lit(sep)] + Fields(4, sep));
  }

  /** A format for another separator stops at the first field. */
  lemma WrongSeparator(d: string, c: char, rest: string, sep: char)
    requires d != "" && AllHex(d) && !IsHex(c) && c != sep
    ensures |Scan(d + ([c] + rest), Fields(6, sep))| == 1
  {
    hide Scan, Value;
    ScanField(d, [c] + rest, Fields(6, sep));
    ScanLit(c, rest, Fields(6, sep)[1..]);
  }

  /** The Cisco format stops before a dash or a colon. */
  lemma CiscoStopsAt(d: string, c: char, rest: string)
    requires d != "" && AllHex(d) && !IsHex(c) && c != '.'
    ensures |Scan(d + ([c] + rest), CISCO_FORMAT)| <= 2
  {
    hide Value, Scan, Digits;
    var s, f := d + ([c] + rest), CISCO_FORMAT;
    DigitsOfField(d, [c] + rest, 2);
    var n := if |d| <= 2 then |d| else 2;
    ScanHex(s, n, f);
    assert s[n..] == d[n..] + ([c] + rest);
    DigitsOfField(d[n..], [c] + rest, 0);
    ScanHex(s[n..], |d| - n, f[1..]);
    assert s[n..][|d| - n..] == [c] + rest;
    ScanLit(c, rest, f[1..][1..]);
  }

  /** Six fields of any length, in either case, joined by colons or by dashes, parse to their values mod 256. */
  lemma JoinedParses(fields: seq<string>, sep: char)
    requires |fields| == 6 && HexFields(fields) && (sep == ':' || sep == '-')
    ensures Parse(Join(fields, sep)) == Some(Bytes(Values(fields)))
  {
    FormatsAreFields();
    hide Scan, Fields, Bytes, Value;
    ScanJoined(fields, sep);
    if sep == '-' {
      var rest := Join(fields[1..], sep);
      assert Join(fields, sep) == fields[0] + ([sep] + rest);
      WrongSeparator(fields[0], sep, rest, ':');
      CiscoStopsAt(fields[0], sep, rest);
    }
  }

  predicate IsGroup(g: string) {
    |g| >= 3 && AllHex(g)
  }

  function GroupPair(g: string): (v: seq<nat>)
    requires IsGroup(g)
    ensures |v| == 2
  {
    [Value(g[..2]), Value(g[2..])]
  }

  /** A group of at least three digits gives its first two, then the others. */
  lemma ScanGroup(g: string, rest: string, fmt: seq<Directive>)
    requires IsGroup(g) && (rest == "" || !IsHex(rest[0]))
    requires |fmt| >= 2 && fmt[0] == Hex(2) && fmt[1] == Hex(0)
    ensures Scan(g + rest, fmt) == GroupPair(g) + Scan(rest, fmt[2..])
  {
    hide Value, Scan, Digits;
    DigitsOfField(g, rest, 2);
    ScanHex(g + rest, 2, fmt);
    assert (g + rest)[..2] == g[..2] && (g + rest)[2..] == g[2..] + rest;
    ScanField(g[2..], rest, fmt[1..]);
    assert fmt[1..][1..] == fmt[2..];
  }

  function Dotted(a: string, b: string, c: string): string {
    a + ("." + (b + ("." + c)))
  }

  lemma GroupsParse(a: string, b: string, c: string)
    requires IsGroup(a) && IsGroup(b) && IsGroup(c)
    ensures Parse(Dotted(a, b, c)) == Some(Bytes(GroupPair(a) + GroupPair(b) + GroupPair(c)))
  {
    FormatsAreFields();
    hide Scan, Fields, Bytes, GroupPair;
    var f := CISCO_FORMAT;
    var tail := b + ("." + c);
    ScanGroup(a, "." + tail, f);
    ScanLit('.', tail, f[2..]);
    ScanGroup(b, "." + c, f[2..][1..]);
    ScanLit('.', c, f[2..][1..][2..]);
    assert c + "" == c;
    ScanGroup(c, "", f[2..][1..][2..][1..]);
    assert f[2..][1..][2..][1..][2..] == [];
    ScanNothing("");
    assert Scan(a + ("." + tail), f) == GroupPair(a) + GroupPair(b) + GroupPair(c);
    WrongSeparator(a, '.', tail, ':');
  }

  // ----- the accepted language

  /** The text begins with so many hexadecimal fields, joined by this separator; anything may follow. */
  ghost predicate BeginsJoined(s: string, n: nat, sep: char)
    requires n > 0
  {
    exists fields: seq<string> :: |fields| == n && HexFields(fields) && Join(fields, sep) <= s
  }

  /** The text begins with three dotted groups of at least three digits each; anything may follow. */
  ghost predicate BeginsDotted(s: string) {
    exists a, b, c :: IsGroup(a) && IsGroup(b) && IsGroup(c) && Dotted(a, b, c) <= s
  }

  lemma {:induction false} DigitsAtLeast(d: string, rest: string)
    requires AllHex(d)
    ensures Digits(d + rest, 0) >= |d|
  {
    if d != "" {
      assert (d + rest)[1..] == d[1..] + rest;
      DigitsAtLeast(d[1..], rest);
    }
  }

  /** The last conversion takes at least its field. */
  lemma ScanLastField(d: string, rest: string, fmt: seq<Directive>)
    requires d != "" && AllHex(d) && fmt == [Hex(0)]
    ensures |Scan(d + rest, fmt)| == 1
  {
    hide Value, Scan, Digits;
    DigitsAtLeast(d, rest);
    var n := Digits(d + rest, 0);
    ScanHex(d + rest, n, fmt);
    ScanNothing((d + rest)[n..]);
    assert fmt[1..] == [];
  }

  lemma {:induction false} JoinedScans(fields: seq<string>, sep: char, rest: string)
    requires fields != [] && HexFields(fields) && !IsHex(sep)
    ensures |Scan(Join(fields, sep) + rest, Fields(|fields|, sep))| == |fields|
    decreases |fields|
  {
    hide Scan, Value, Fields, Join, Values, HexFields, AllHex, IsHex;
    ValuesStep(fields);
    if |fields| == 1 {
      LastField(fields, sep);
      ScanLastField(fields[0], rest, Fields(1, sep));
    } else {
      JoinStep(fields, sep);
      FieldsStep(|fields|, sep);
      var tail := Join(fields[1..], sep);
      assert fields[0] + ([sep] + tail) + rest == fields[0] + ([sep] + (tail + rest));
      ScanFieldAndLit(fields[0], sep, tail + rest, Fields(|fields|, sep));
      JoinedScans(fields[1..], sep, rest);
    }
  }

  lemma LastField(fields: seq<string>, sep: char)
    requires |fields| == 1
    ensures Join(fields, sep) == fields[0] && Fields(1, sep) == [Hex(0)]
  {
  }

  /** A conversion that is followed by one more has found its field and its separator. */
  lemma ScanSplits(s: string, fmt: seq<Directive>) returns (k: nat)
    requires |fmt| >= 2 && fmt[0].Hex? && fmt[1].Lit? && |Scan(s, fmt)| > 1
    ensures 0 < k < |s| && k == Digits(s, fmt[0].width) && s[k] == fmt[1].c
    ensures Scan(s, fmt) == [Value(s[..k])] + Scan(s[k + 1..], fmt[2..])
  {
    hide Value, Scan, Digits;
    k := Digits(s, fmt[0].width);
    ScanHex(s, k, fmt);
    assert fmt[1..][1..] == fmt[2..];
    ScanLitStep(s[k..], fmt[1..]);
    assert k < |s| ==> s[k..][0] == s[k] && s[k..][1..] == s[k + 1..];
  }

  lemma ScanLitStep(s: string, fmt: seq<Directive>)
    requires fmt != [] && fmt[0].Lit?
    ensures Scan(s, fmt) == if s != "" && s[0] == fmt[0].c then Scan(s[1..], fmt[1..]) else []
  {
    hide Digits;
  }

  lemma {:induction false} ScannedIsJoined(s: string, n: nat, sep: char) returns (fields: seq<string>)
    requires n > 0 && |Scan(s, Fields(n, sep))| == n
    ensures |fields| == n && HexFields(fields) && Join(fields, sep) <= s
    decreases n
  {
    hide Scan, Value, Fields, Join, Digits;
    if n == 1 {
      fields := [s[..Digits(s, 0)]];
      LastField(fields, sep);
      ScanHex(s, Digits(s, 0), Fields(1, sep));
    } else {
      FieldsStep(n, sep);
      var k := ScanSplits(s, Fields(n, sep));
      var rest := ScannedIsJoined(s[k + 1..], n - 1, sep);
      fields := [s[..k]] + rest;
      JoinStep(fields, sep);
      assert fields[1..] == rest;
      assert s == s[..k] + ([sep] + s[k + 1..]);
    }
  }

  lemma ScansIffJoined(s: string, n: nat, sep: char)
    requires n > 0 && !IsHex(sep)
    ensures |Scan(s, Fields(n, sep))| == n <==> BeginsJoined(s, n, sep)
  {
    hide Scan, Fields, Join, IsHex, HexFields;
    if |Scan(s, Fields(n, sep))| == n {
      var fields := ScannedIsJoined(s, n, sep);
    }
    if fields: seq<string> :| |fields| == n && HexFields(fields) && Join(fields, sep) <= s {
      var rest := s[|Join(fields, sep)|..];
      assert s == Join(fields, sep) + rest;
      JoinedScans(fields, sep, rest);
    }
  }

  lemma TwoDigits(s: string)
    requires Digits(s, 2) > 0 && Digits(s[Digits(s, 2)..], 0) > 0
    ensures Digits(s, 2) == 2
  {
    assert s[1..][0..] == s[1..];
  }

  lemma HexRuns(s: string, n: nat, m: nat)
    requires n + m <= |s| && AllHex(s[..n]) && AllHex(s[n..][..m])
    ensures AllHex(s[..n + m]) && s[n..][m..] == s[n + m..] && s == s[..n + m] + s[n + m..]
  {
    hide IsHex;
    assert s[..n + m] == s[..n] + s[n..][..m];
  }

  /** Two conversions, the first of at most two digits, that both succeed have found a group. */
  lemma ScanTakesGroup(s: string, fmt: seq<Directive>) returns (g: string, rest: string)
    requires |fmt| >= 2 && fmt[0] == Hex(2) && fmt[1] == Hex(0) && |Scan(s, fmt)| >= 2
    ensures IsGroup(g) && s == g + rest && |Scan(s, fmt)| == 2 + |Scan(rest, fmt[2..])|
  {
    hide Value, Scan, Digits, AllHex;
    var n := Digits(s, 2);
    var m := Digits(s[n..], 0);
    g, rest := s[..n + m], s[n + m..];
    ScanHex(s, n, fmt);
    ScanHex(s[n..], m, fmt[1..]);
    TwoDigits(s);
    HexRuns(s, n, m);
    assert fmt[1..][1..] == fmt[2..];
  }

  /** If a dot comes next in the format, and more is converted, a dot comes next in the text. */
  lemma ScanTakesGroupAndDot(s: string, fmt: seq<Directive>) returns (g: string, rest: string)
    requires |fmt| >= 3 && fmt[0] == Hex(2) && fmt[1] == Hex(0) && fmt[2] == Lit('.') && |Scan(s, fmt)| > 2
    ensures IsGroup(g) && s == g + ("." + rest) && |Scan(s, fmt)| == 2 + |Scan(rest, fmt[3..])|
  {
    hide Scan, IsGroup;
    var after;
    g, after := ScanTakesGroup(s, fmt);
    ScanLitStep(after, fmt[2..]);
    rest := after[1..];
    assert after == "." + rest && fmt[2..][1..] == fmt[3..];
  }

  lemma CiscoScannedIsDotted(s: string)
    requires |Scan(s, CISCO_FORMAT)| == 6
    ensures BeginsDotted(s)
  {
    hide Scan, IsGroup;
    var f := CISCO_FORMAT;
    var a, s1 := ScanTakesGroupAndDot(s, f);
    var b, s2 := ScanTakesGroupAndDot(s1, f[3..]);
    var c, s3 := ScanTakesGroup(s2, f[3..][3..]);
    assert s == Dotted(a, b, c) + s3;
  }

  lemma DottedScans(a: string, b: string, c: string, rest: string)
    requires IsGroup(a) && IsGroup(b) && IsGroup(c)
    ensures |Scan(Dotted(a, b, c) + rest, CISCO_FORMAT)| == 6
  {
    hide Scan, GroupPair;
    var f := CISCO_FORMAT;
    var tail := b + ("." + (c + rest));
    assert Dotted(a, b, c) + rest == a + ("." + tail);
    ScanGroup(a, "." + tail, f);
    ScanLit('.', tail, f[2..]);
    ScanGroup(b, "." + (c + rest), f[2..][1..]);
    ScanLit('.', c + rest, f[2..][1..][2..]);
    LastGroupScans(c, rest, f[2..][1..][2..][1..]);
  }

  /** The last group may take more of what follows it. */
  lemma LastGroupScans(c: string, rest: string, fmt: seq<Directive>)
    requires IsGroup(c) && fmt == [Hex(2), Hex(0)]
    ensures |Scan(c + rest, fmt)| == 2
  {
    hide Value, Scan;
    assert c + rest == [c[0], c[1]] + (c[2..] + rest);
    ScanHex(c + rest, 2, fmt);
    ScanLastField(c[2..], rest, fmt[1..]);
    assert (c + rest)[2..] == c[2..] + rest;
  }

  lemma CiscoScansIff(s: string)
    ensures |Scan(s, CISCO_FORMAT)| == 6 <==> BeginsDotted(s)
  {
    hide Scan, Dotted, IsGroup;
    if |Scan(s, CISCO_FORMAT)| == 6 { CiscoScannedIsDotted(s); }
    if a, b, c :| IsGroup(a) && IsGroup(b) && IsGroup(c) && Dotted(a, b, c) <= s {
      var rest := s[|Dotted(a, b, c)|..];
      assert s == Dotted(a, b, c) + rest;
      DottedScans(a, b, c, rest);
    }
  }

  /** The language that get_mac_addr accepts: the text begins with six hexadecimal fields joined by colons or by
      dashes, or with three dotted groups of at least three digits; whatever follows is ignored. */
  lemma ParsesIff(s: string)
    ensures Parse(s).Some? <==> BeginsJoined(s, 6, ':') || BeginsJoined(s, 6, '-') || BeginsDotted(s)
  {
    FormatsAreFields();
    hide Scan, Fields, Bytes, BeginsJoined, BeginsDotted;
    ScansIffJoined(s, 6, ':');
    ScansIffJoined(s, 6, '-');
    CiscoScansIff(s);
  }

  function CiscoSpelling(m: Mac): string {
    Dotted(Hex2(m[0]) + Hex2(m[1]), Hex2(m[2]) + Hex2(m[3]), Hex2(m[4]) + Hex2(m[5]))
  }

  lemma GroupOfPairs(a: byte, b: byte)
    ensures IsGroup(Hex2(a) + Hex2(b)) && GroupPair(Hex2(a) + Hex2(b)) == [a as nat, b as nat]
  {
    hide Value;
    assert (Hex2(a) + Hex2(b))[..2] == Hex2(a) && (Hex2(a) + Hex2(b))[2..] == Hex2(b);
  }

  /** Printing and parsing is the identity, and all three spellings of an address parse to it. */
  lemma RoundTrip(m: Mac)
    ensures Parse(FormatMac(m)) == Some(m)
    ensures Parse(Join(Pairs(m), '-')) == Some(m)
    ensures Parse(CiscoSpelling(m)) == Some(m)
  {
    hide Parse, Join, Value, GroupPair;
    JoinedParses(Pairs(m), ':');
    JoinedParses(Pairs(m), '-');
    GroupOfPairs(m[0], m[1]);
    GroupOfPairs(m[2], m[3]);
    GroupOfPairs(m[4], m[5]);
    GroupsParse(Hex2(m[0]) + Hex2(m[1]), Hex2(m[2]) + Hex2(m[3]), Hex2(m[4]) + Hex2(m[5]));
    assert Bytes([m[0] as nat, m[1] as nat] + [m[2] as nat, m[3] as nat] + [m[4] as nat, m[5] as nat]) == m;
  }

  // ----- addresses digit by digit

  const LOWER := "0123456789abcdef"
  const UPPER := "0123456789ABCDEF"

  /** What each digit is worth, in either case, and that there are no others. */
  lemma DigitValues(c: char)
    ensures forall v: nat :: v < 16 ==> IsHex(LOWER[v]) && IsHex(UPPER[v])
    ensures forall v: nat :: v < 16 ==> HexValue(LOWER[v]) == v == HexValue(UPPER[v])
    ensures IsHex(c) <==> c in LOWER || c in UPPER
  {
    if '0' <= c <= '9' { assert LOWER[c as int - '0' as int] == c; }
    if 'a' <= c <= 'f' { assert LOWER[c as int - 'a' as int + 10] == c; }
    if 'A' <= c <= 'F' { assert UPPER[c as int - 'A' as int + 10] == c; }
  }

  /** The byte as two hexadecimal digits, each in either case. */
  predicate Spells(f: string, b: byte) {
    && |f| == 2
    && (f[0] == LOWER[b as int / 16] || f[0] == UPPER[b as int / 16])
    && (f[1] == LOWER[b as int % 16] || f[1] == UPPER[b as int % 16])
  }

  lemma SpelledValue(f: string, b: byte)
    requires Spells(f, b)
    ensures AllHex(f) && Value(f) == b as int
  {
    hide IsHex, HexValue;
    DigitValues(f[0]);
    assert Init(f) == [f[0]] && Value(Init(Init(f))) == 0;
    assert Value(Init(f)) == HexValue(f[0]);
  }

  ghost predicate SpelledBy(m: Mac, fields: seq<string>) {
    |fields| == 6 && forall i :: 0 <= i < 6 ==> Spells(fields[i], m[i])
  }

  lemma SpelledGroup(f: string, g: string, a: byte, b: byte)
    requires Spells(f, a) && Spells(g, b)
    ensures IsGroup(f + g) && GroupPair(f + g) == [a as nat, b as nat]
  {
    hide Value, Spells;
    SpelledValue(f, a);
    SpelledValue(g, b);
    SpelledLength(f, a);
    SpelledLength(g, b);
    assert (f + g)[..2] == f && (f + g)[2..] == g;
  }

  lemma SpelledLength(f: string, b: byte)
    requires Spells(f, b)
    ensures |f| == 2
  {
  }

  /** Every address parses from each of its spellings in two-digit bytes, in upper, lower or mixed case. */
  lemma SpellingsParse(m: Mac, fields: seq<string>)
    requires SpelledBy(m, fields)
    ensures Parse(Join(fields, ':')) == Some(m) && Parse(Join(fields, '-')) == Some(m)
    ensures Parse(Dotted(fields[0] + fields[1], fields[2] + fields[3], fields[4] + fields[5])) == Some(m)
  {
    hide Parse, Join, Value, GroupPair, Spells, IsGroup, AllHex;
    forall i | 0 <= i < 6
      ensures fields[i] != "" && AllHex(fields[i]) && Value(fields[i]) == m[i] as int
    {
      SpelledValue(fields[i], m[i]);
      SpelledLength(fields[i], m[i]);
    }
    assert Bytes(Values(fields)) == m;
    JoinedParses(fields, ':');
    JoinedParses(fields, '-');
    SpelledGroup(fields[0], fields[1], m[0], m[1]);
    SpelledGroup(fields[2], fields[3], m[2], m[3]);
    SpelledGroup(fields[4], fields[5], m[4], m[5]);
    GroupsParse(fields[0] + fields[1], fields[2] + fields[3], fields[4] + fields[5]);
    assert Bytes([m[0] as nat, m[1] as nat] + [m[2] as nat, m[3] as nat] + [m[4] as nat, m[5] as nat]) == m;
  }

  /** What format_mac prints, character by character. */
  lemma FormatMacPrints(m: Mac)
    ensures var s := FormatMac(m);
            && |s| == 17
            && forall i :: 0 <= i < 6 ==>
                 && s[3 * i] == LOWER[m[i] as int / 16] && s[3 * i + 1] == LOWER[m[i] as int % 16]
                 && (i < 5 ==> s[3 * i + 2] == ':')
  {
    hide Value, Hex2, AllHex, Join;
    JoinedPairsAt(Pairs(m), ':');
    forall i | 0 <= i < 6
      ensures Pairs(m)[i][0] == LOWER[m[i] as int / 16] && Pairs(m)[i][1] == LOWER[m[i] as int % 16]
    {
      Hex2Prints(m[i]);
    }
  }

  lemma Hex2Prints(b: byte)
    ensures Hex2(b)[0] == LOWER[b as int / 16] && Hex2(b)[1] == LOWER[b as int % 16]
  {
    hide Value, HexValue, AllHex;
  }

  /** Fields of two characters lie three apart. */
  lemma {:induction false} JoinedPairsAt(p: seq<string>, sep: char)
    requires p != [] && forall i :: 0 <= i < |p| ==> |p[i]| == 2
    ensures var s := Join(p, sep);
            && |s| == 3 * |p| - 1
            && forall i :: 0 <= i < |p| ==>
                 s[3 * i] == p[i][0] && s[3 * i + 1] == p[i][1] && (i < |p| - 1 ==> s[3 * i + 2] == sep)
    decreases |p|
  {
    if |p| > 1 {
      JoinedPairsAt(p[1..], sep);
      var s, rest := Join(p, sep), Join(p[1..], sep);
      assert s == p[0] + [sep] + rest;
      forall i | 0 < i < |p|
        ensures s[3 * i] == p[i][0] && s[3 * i + 1] == p[i][1] && (i < |p| - 1 ==> s[3 * i + 2] == sep)
      {
        assert p[1..][i - 1] == p[i] && 3 * i == 3 + 3 * (i - 1);
      }
    }
  }

  // ----- is_mac_addr

  predicate Shaped(s: string, group: nat, sep: char) {
    forall i :: 0 <= i < |s| ==> if i % (group + 1) == group then s[i] == sep else IsHex(s[i])
  }

  predicate LooksLikeMac(s: string) {
    || (|s| == 14 && Shaped(s, 4, '.'))
    || (|s| == 17 && Shaped(s, 2, '-'))
    || ':' in s
  }

  method IsMacAddr(p: string) returns (r: bool)
    ensures r == LooksLikeMac(p)
  {
    var shaped := false;
    if 3 * 5 - 1 == |p| {
      shaped := true;
      var c := 0;
      while c < |p| && shaped
        invariant 0 <= c <= |p|
        invariant shaped ==> forall i :: 0 <= i < c ==> if i % 5 == 4 then p[i] == '.' else IsHex(p[i])
        invariant !shaped ==> !Shaped(p, 4, '.')
      {
        if c % 5 == 4 {
          if '.' != p[c] { shaped := false; }
        } else {
          if !IsHex(p[c]) { shaped := false; }
        }
        c := c + 1;
      }
    } else if 6 * 3 - 1 == |p| {
      shaped := true;
      var c := 0;
      while c < |p| && shaped
        invariant 0 <= c <= |p|
        invariant shaped ==> forall i :: 0 <= i < c ==> if i % 3 == 2 then p[i] == '-' else IsHex(p[i])
        invariant !shaped ==> !Shaped(p, 2, '-')
      {
        if c % 3 == 2 {
          if '-' != p[c] { shaped := false; }
        } else {
          if !IsHex(p[c]) { shaped := false; }
        }
        c := c + 1;
      }
    }
    r := shaped || ':' in p;
  }

  /** What the classifier recognises by shape, without a colon, the parser accepts. */
  lemma ShapedParses(s: string)
    requires LooksLikeMac(s) && ':' !in s
    ensures Parse(s).Some?
  {
    if |s| == 14 {
      CiscoShapedParses(s);
    } else {
      DashShapedParses(s);
    }
  }

  lemma CiscoShapedParses(s: string)
    requires |s| == 14 && Shaped(s, 4, '.')
    ensures Parse(s).Some?
  {
    hide Parse;
    assert s[4] == '.' && s[9] == '.';
    assert AllHex(s[..4]) && AllHex(s[5..9]) && AllHex(s[10..]);
    DotsSplit(s);
    GroupsParse(s[..4], s[5..9], s[10..]);
  }

  lemma DotsSplit(s: string)
    requires |s| == 14 && s[4] == s[9] == '.'
    ensures s == Dotted(s[..4], s[5..9], s[10..])
  {
    var t := s[5..];
    assert s == s[..4] + ("." + t) && t == s[5..9] + ("." + s[10..]);
  }

  lemma ShapedTail(s: string)
    requires |s| >= 3 && Shaped(s, 2, '-')
    ensures Shaped(s[3..], 2, '-') && s[2] == '-' && AllHex(s[..2])
  {
  }

  lemma {:induction false} DashShapedJoined(s: string, n: nat) returns (fields: seq<string>)
    requires n > 0 && |s| == 3 * n - 1 && Shaped(s, 2, '-')
    ensures |fields| == n && HexFields(fields) && Join(fields, '-') == s
    decreases n
  {
    hide Value;
    if n == 1 {
      fields := [s];
    } else {
      ShapedTail(s);
      var rest := DashShapedJoined(s[3..], n - 1);
      fields := [s[..2]] + rest;
      JoinStep(fields, '-');
      assert fields[1..] == rest;
      DashSplit(s);
    }
  }

  lemma DashSplit(s: string)
    requires |s| >= 3 && s[2] == '-'
    ensures s == s[..2] + (['-'] + s[3..])
  {
  }

  lemma DashShapedParses(s: string)
    requires |s| == 17 && Shaped(s, 2, '-')
    ensures Parse(s).Some?
  {
    var fields := DashShapedJoined(s, 6);
    JoinedParses(fields, '-');
  }

  /** What the colon format parses, the classifier accepts. */
  lemma ColonParsedIsClassified(s: string)
    requires |Scan(s, COLON_FORMAT)| == 6
    ensures LooksLikeMac(s)
  {
  }

  lemma {:induction false} JoinedChars(fields: seq<string>, sep: char)
    requires fields != [] && HexFields(fields)
    ensures forall i :: 0 <= i < |Join(fields, sep)| ==> IsHex(Join(fields, sep)[i]) || Join(fields, sep)[i] == sep
    decreases |fields|
  {
    if |fields| > 1 { JoinedChars(fields[1..], sep); }
  }

  predicate IsDigit(c: char) {
    '0' <= c <= '9'
  }

  /** Four runs of one to three decimal digits. */
  predicate DottedQuad(fields: seq<string>) {
    && |fields| == 4
    && forall i :: 0 <= i < 4 ==>
         1 <= |fields[i]| <= 3 && forall k :: 0 <= k < |fields[i]| ==> IsDigit(fields[i][k])
  }

  /** No IPv4 address in dotted notation is taken for a MAC address. */
  lemma DottedQuadIsNoMac(fields: seq<string>)
    requires DottedQuad(fields)
    ensures !LooksLikeMac(Join(fields, '.'))
  {
    var s := Join(fields, '.');
    var k := |fields[0]|;
    JoinedChars(fields, '.');
    assert s == fields[0] + "." + Join(fields[1..], '.');
    assert s[k] == '.' && k % 5 != 4;
    assert !Shaped(s, 4, '.') && !Shaped(s, 2, '-');
  }

  /** Each of the three spellings of every address is classified as one. */
  lemma SpellingsAreClassified(m: Mac)
    ensures LooksLikeMac(FormatMac(m)) && LooksLikeMac(Join(Pairs(m), '-')) && LooksLikeMac(CiscoSpelling(m))
  {
    hide Value;
    var p := Pairs(m);
    var f := FormatMac(m);
    assert f == p[0] + [':'] + Join(p[1..], ':');
    assert f[2] == ':';
    PairsShaped(p);
  }

  lemma {:induction false} PairsShaped(p: seq<string>)
    requires p != [] && HexFields(p) && forall i :: 0 <= i < |p| ==> |p[i]| == 2
    ensures |Join(p, '-')| == 3 * |p| - 1 && Shaped(Join(p, '-'), 2, '-')
    decreases |p|
  {
    if |p| > 1 {
      PairsShaped(p[1..]);
      var rest := Join(p[1..], '-');
      assert forall i :: 3 <= i < 3 * |p| - 1 ==> Join(p, '-')[i] == rest[i - 3] && i % 3 == (i - 3) % 3;
    }
  }
}
