/** `parseType` (arraybuffer-struct.js:306-315): a type tag such as
    `i32[2][3]` becomes a kind and its dimension list.

    The source takes the identifier with `/^([a-zA-Z_$][\w$]*)/` and the
    dimensions with the global `/\[\s*(\d+)\s*\]/g`, which scans the WHOLE tag
    for bracketed integers; both are written out here character by character.
    An identifier with no sized entry in the kind table fails at the lookup on
    line 310, before the explicit check on line 311 is reached. */
module TypeTag {
  import opened Common
  import opened Kinds

  predicate IsIdentStart(c: char) {
    'a' <= c <= 'z' || 'A' <= c <= 'Z' || c == '_' || c == '$'
  }

  /** `[\w$]` */
  predicate IsWordChar(c: char) {
    IsIdentStart(c) || IsDigit(c)
  }

  /** `\d` (no `u` flag: ASCII digits only). */
  predicate IsDigit(c: char) {
    '0' <= c <= '9'
  }

  /** `\s`: the WhiteSpace and LineTerminator code points of ECMA-262
      (sections 12.2 and 12.3). */
  predicate IsSpace(c: char) {
    var n := c as int;
    (9 <= n <= 13) || n == 32 || n == 0xA0 || n == 0x1680 || (0x2000 <= n <= 0x200A)
    || n == 0x2028 || n == 0x2029 || n == 0x202F || n == 0x205F || n == 0x3000 || n == 0xFEFF
  }

  /** Length of the longest prefix of `s` whose characters satisfy `p`. */
  function Span(s: string, p: char -> bool): (n: nat)
    ensures n <= |s|
    ensures forall i :: 0 <= i < n ==> p(s[i])
    ensures n < |s| ==> !p(s[n])
  {
    if |s| == 0 || !p(s[0]) then 0 else 1 + Span(s[1..], p)
  }

  /** `parseInt` of a string of decimal digits. */
  function DigitsValue(ds: string): nat {
    if |ds| == 0 then 0
    else 10 * DigitsValue(ds[..|ds| - 1]) + DigitValue(ds[|ds| - 1])
  }

  function DigitValue(c: char): nat {
    if IsDigit(c) then (c as int) - ('0' as int) else 0
  }

  /** The identifier at the start of a tag, if the regular expression matches. */
  function Identifier(tag: string): (r: Option<string>)
    ensures r.Some? ==> |r.value| > 0 && r.value <= tag
    ensures r.Some? ==> forall i :: 0 <= i < |r.value| ==> IsWordChar(r.value[i])
    ensures r.Some? && |r.value| < |tag| ==> !IsWordChar(tag[|r.value|])
    ensures r.None? <==> |tag| == 0 || !IsIdentStart(tag[0])
  {
    if |tag| > 0 && IsIdentStart(tag[0]) then Some(tag[..Span(tag, IsWordChar)]) else None
  }

  /** One match of `\[\s*(\d+)\s*\]` at the start of `s`: the integer and the
      number of characters the match consumes. Backtracking cannot help this
      pattern (spaces, digits and `]` are disjoint), so a greedy scan decides it. */
  function MatchBracket(s: string): (r: Option<(nat, nat)>)
    ensures r.Some? ==> 3 <= r.value.1 <= |s| && s[0] == '[' && s[r.value.1 - 1] == ']'
  {
    if |s| == 0 || s[0] != '[' then None
    else
      var a := 1 + Span(s[1..], IsSpace);
      var b := a + Span(s[a..], IsDigit);
      if b == a then None
      else
        var c := b + Span(s[b..], IsSpace);
        if c < |s| && s[c] == ']' then Some((DigitsValue(s[a..b]), c + 1)) else None
  }

  /** All matches of the global dimension pattern, left to right: after a
      match the scan resumes behind it, otherwise one character later. */
  function Brackets(s: string): seq<nat>
    decreases |s|
  {
    if |s| == 0 then []
    else
      var m := MatchBracket(s);
      if m.Some? then [m.value.0] + Brackets(s[m.value.1..]) else Brackets(s[1..])
  }

  /** `dims.reduce((total, value) => total * value, 1)`; 1 for no dimensions. */
  function Product(dims: seq<nat>): nat {
    if |dims| == 0 then 1 else dims[0] * Product(dims[1..])
  }

  /** What `parseType` returns: `{type, length, dims, byteSize, totalSize}`. */
  datatype TypeInfo = TypeInfo(kind: Kind, dims: seq<nat>, length: nat, totalSize: nat) {
    /** `byteSize`, the element size of the kind. */
    function ByteSize(): nat { kind.Size() }

    /** The derived fields agree with the kind and the dimensions. */
    predicate Valid() {
      length == Product(dims) && totalSize == kind.Size() * length
    }
  }

  function MakeInfo(k: Kind, dims: seq<nat>): (r: TypeInfo)
    ensures r.Valid() && r.kind == k && r.dims == dims
  {
    var length := Product(dims);
    TypeInfo(k, dims, length, k.Size() * length)
  }

  function ParseType(tag: string): (r: Result<TypeInfo>)
    ensures r.Err? <==> Identifier(tag).None? || Lookup(Identifier(tag).value).None?
    ensures r.Err? ==> r.error == UnknownType(tag)
    ensures r.Ok? ==> r.value.kind.Name() == Identifier(tag).value && r.value.dims == Brackets(tag)
    ensures r.Ok? ==> r.value.Valid()
  {
    match Identifier(tag)
    case None => Err(UnknownType(tag))
    case Some(id) =>
      match Lookup(id)
      case None => Err(UnknownType(tag))
      case Some(k) => Ok(MakeInfo(k, Brackets(tag)))
  }

  /** The flat length is zero exactly when some extent is zero. */
  lemma {:induction false} ProductZero(dims: seq<nat>)
    ensures Product(dims) == 0 <==> exists i :: 0 <= i < |dims| && dims[i] == 0
  {
    if |dims| > 0 {
      ProductZero(dims[1..]);
      if Product(dims[1..]) == 0 {
        var i :| 0 <= i < |dims[1..]| && dims[1..][i] == 0;
        assert dims[i + 1] == 0;
      }
      if exists i :: 0 <= i < |dims| && dims[i] == 0 {
        var i :| 0 <= i < |dims| && dims[i] == 0;
        if i > 0 {
          assert dims[1..][i - 1] == 0;
        }
      }
    }
  }

  // ---------------------------------------------------------------------
  // Printing tags, and parsing what was printed.

  function DigitChar(d: nat): char
    requires d < 10
  {
    ('0' as int + d) as char
  }

  /** Decimal notation of a natural number, without leading zeros. */
  function Decimal(n: nat): (r: string)
    ensures |r| > 0 && forall i :: 0 <= i < |r| ==> IsDigit(r[i])
  {
    if n < 10 then [DigitChar(n)] else Decimal(n / 10) + [DigitChar(n % 10)]
  }

  lemma {:induction false} DecimalValue(n: nat)
    ensures DigitsValue(Decimal(n)) == n
  {
    if n >= 10 {
      var s := Decimal(n);
      assert s[..|s| - 1] == Decimal(n / 10);
      DecimalValue(n / 10);
    }
  }

  /** `[d0][d1]…` */
  function Suffix(dims: seq<nat>): (r: string)
    ensures forall i :: 0 <= i < |r| ==> !IsWordChar(r[i]) || IsDigit(r[i])
    ensures |dims| > 0 ==> |r| > 0 && r[0] == '['
  {
    if |dims| == 0 then [] else "[" + Decimal(dims[0]) + "]" + Suffix(dims[1..])
  }

  /** The canonical tag of a kind and a dimension list, e.g. `i32[2][3]`. */
  function Render(k: Kind, dims: seq<nat>): string {
    k.Name() + Suffix(dims)
  }

  lemma {:induction false} BracketsSkip(p: string, s: string)
    requires forall i :: 0 <= i < |p| ==> p[i] != '['
    ensures Brackets(p + s) == Brackets(s)
  {
    if |p| > 0 {
      var t := p + s;
      assert t[0] == p[0];
      assert MatchBracket(t).None?;
      assert t[1..] == p[1..] + s;
      BracketsSkip(p[1..], s);
    } else {
      assert p + s == s;
    }
  }

  lemma MatchGroup(d: nat, rest: string)
    ensures MatchBracket("[" + Decimal(d) + "]" + rest) == Some((d, |Decimal(d)| + 2))
  {
    var ds := Decimal(d);
    var s := "[" + ds + "]" + rest;
    var n := |ds|;
    assert s[1..][0] == ds[0];
    assert Span(s[1..], IsSpace) == 0;
    assert s[1..] == ds + "]" + rest;
    SpanExact(s[1..], IsDigit, n);
    assert s[1 + n..][0] == ']';
    assert Span(s[1 + n..], IsSpace) == 0;
    assert s[1..1 + n] == ds;
    DecimalValue(d);
  }

  lemma SpanExact(s: string, p: char -> bool, n: nat)
    requires n < |s| && !p(s[n]) && forall i :: 0 <= i < n ==> p(s[i])
    ensures Span(s, p) == n
  {
  }

  lemma {:induction false} BracketsSuffix(dims: seq<nat>)
    ensures Brackets(Suffix(dims)) == dims
  {
    if |dims| > 0 {
      var rest := Suffix(dims[1..]);
      var s := Suffix(dims);
      assert s == "[" + Decimal(dims[0]) + "]" + rest;
      MatchGroup(dims[0], rest);
      assert s[|Decimal(dims[0])| + 2..] == rest;
      BracketsSuffix(dims[1..]);
    }
  }

  /** Every tag printed from a kind and a dimension list parses back to them:
      the dimensions are the bracketed integers, in order. */
  lemma ParseRender(k: Kind, dims: seq<nat>)
    ensures ParseType(Render(k, dims)) == Ok(MakeInfo(k, dims))
  {
    RenderIdentifier(k, dims);
    LookupName(k);
    BracketsSkip(k.Name(), Suffix(dims));
    BracketsSuffix(dims);
  }

  /** The identifier of a printed tag is the kind's name. */
  lemma RenderIdentifier(k: Kind, dims: seq<nat>)
    ensures Identifier(Render(k, dims)) == Some(k.Name())
  {
    var name := k.Name();
    var tag := Render(k, dims);
    assert tag[..|name|] == name;
    if |dims| > 0 {
      assert tag[|name|] == '[';
      SpanExact(tag, IsWordChar, |name|);
    } else {
      assert tag == name;
    }
  }
}
