/** The branch-type classifier `categorize_dtype`: endianness markers are
    rewritten to canonical numeric names with sequential `str.replace` calls,
    a shape tier is picked (jagged, fixed array, scalar) and, inside the tier,
    the token tests run in a fixed order and the first one whose token occurs
    decides the category, wherever in the string the tokens stand. */
module Dtype {
  import opened Optional
  import opened Text

  /** The categories `categorize_dtype` can return. */
  datatype Category =
    | VectorFloat | VectorDouble | VectorInt32 | VectorInt64 | VectorUInt32
    | VectorBoolOrByte | VectorOther
    | ArrayFloat | ArrayDouble | ArrayOther
    | Float | Double | Int32 | Int64 | UInt32 | BoolOrByte | Other
  {
    /** The shape tier a category belongs to. */
    function Tier(): Tier {
      match this
      case VectorFloat | VectorDouble | VectorInt32 | VectorInt64 | VectorUInt32
        | VectorBoolOrByte | VectorOther => Jagged
      case ArrayFloat | ArrayDouble | ArrayOther => FixedArray
      case _ => Scalar
    }
  }

  datatype Tier = Jagged | FixedArray | Scalar

  /** The label the source returns for each category. */
  function Label(c: Category): string {
    match c
    case VectorFloat => "vector<float>"
    case VectorDouble => "vector<double>"
    case VectorInt32 => "vector<int32>"
    case VectorInt64 => "vector<int64>"
    case VectorUInt32 => "vector<uint32>"
    case VectorBoolOrByte => "vector<uint8/bool>"
    case VectorOther => "vector<other>"
    case ArrayFloat => "array<float>"
    case ArrayDouble => "array<double>"
    case ArrayOther => "array<other>"
    case Float => "float"
    case Double => "double"
    case Int32 => "int32"
    case Int64 => "int64"
    case UInt32 => "uint32"
    case BoolOrByte => "uint8/bool"
    case Other => "other"
  }

  /** The category a label names, if it is one of the labels. */
  function ParseLabel(l: string): Option<Category> {
    if l == "vector<float>" then Some(VectorFloat)
    else if l == "vector<double>" then Some(VectorDouble)
    else if l == "vector<int32>" then Some(VectorInt32)
    else if l == "vector<int64>" then Some(VectorInt64)
    else if l == "vector<uint32>" then Some(VectorUInt32)
    else if l == "vector<uint8/bool>" then Some(VectorBoolOrByte)
    else if l == "vector<other>" then Some(VectorOther)
    else if l == "array<float>" then Some(ArrayFloat)
    else if l == "array<double>" then Some(ArrayDouble)
    else if l == "array<other>" then Some(ArrayOther)
    else if l == "float" then Some(Float)
    else if l == "double" then Some(Double)
    else if l == "int32" then Some(Int32)
    else if l == "int64" then Some(Int64)
    else if l == "uint32" then Some(UInt32)
    else if l == "uint8/bool" then Some(BoolOrByte)
    else if l == "other" then Some(Other)
    else None
  }

  /** Reading a label back gives its category. */
  lemma ParseLabelInverts(c: Category)
    ensures ParseLabel(Label(c)) == Some(c)
  {
  }

  /** Distinct categories have distinct labels, so grouping rows by label,
      as pandas does, groups them by category. */
  lemma LabelInjective(c: Category, d: Category)
    ensures Label(c) == Label(d) ==> c == d
  {
    ParseLabelInverts(c);
    ParseLabelInverts(d);
  }

  /** Comparing a label with `'vector<float>'`, as the branch selection does,
      is the same as comparing the category. */
  lemma VectorFloatLabel(c: Category)
    ensures Label(c) == "vector<float>" <==> c == VectorFloat
  {
    match c
    case VectorFloat =>
    case VectorDouble => assert Label(c)[7] != 'f';
    case VectorInt32 => assert Label(c)[7] != 'f';
    case VectorInt64 => assert Label(c)[7] != 'f';
    case VectorUInt32 => assert Label(c)[7] != 'f';
    case VectorBoolOrByte => assert Label(c)[7] != 'f';
    case VectorOther => assert Label(c)[7] != 'f';
    case ArrayFloat => assert Label(c)[0] != 'v';
    case ArrayDouble => assert Label(c)[0] != 'v';
    case ArrayOther => assert Label(c)[0] != 'v';
    case Float => assert |Label(c)| != 13;
    case Double => assert |Label(c)| != 13;
    case Int32 => assert |Label(c)| != 13;
    case Int64 => assert |Label(c)| != 13;
    case UInt32 => assert |Label(c)| != 13;
    case BoolOrByte => assert |Label(c)| != 13;
    case Other => assert |Label(c)| != 13;
  }

  // ---------------------------------------------------------------------------
  // Normalisation of endianness markers

  /** A numpy width code such as `f4`: its kind letter, its width digit and
      the canonical name both of its endianness markers are rewritten to. */
  datatype WidthCode = WidthCode(kind: char, width: char, canonical: string)

  /** The codes in the order the source rewrites them. */
  const Codes: seq<WidthCode> := [
    WidthCode('f', '4', "float32"),
    WidthCode('f', '8', "float64"),
    WidthCode('i', '4', "int32"),
    WidthCode('i', '8', "int64"),
    WidthCode('u', '4', "uint32"),
    WidthCode('u', '8', "uint64")
  ]

  /** The three-character marker of a code with endianness `endian` (`>` or `<`). */
  function Marker(endian: char, c: WidthCode): (m: string)
    ensures |m| == 3
  {
    [endian, c.kind, c.width]
  }

  /** One line of the normalisation: both markers of `c` become its canonical
      name, big-endian first. */
  function RewriteCode(s: string, c: WidthCode): string {
    ReplaceAll(ReplaceAll(s, Marker('>', c), c.canonical), Marker('<', c), c.canonical)
  }

  function RewriteCodes(s: string, codes: seq<WidthCode>): string
    decreases |codes|
  {
    if |codes| == 0 then s else RewriteCodes(RewriteCode(s, codes[0]), codes[1..])
  }

  /** The normalised interpretation string the classifier looks at. */
  function Normalize(s: string): string {
    RewriteCodes(s, Codes)
  }

  // ---------------------------------------------------------------------------
  // Classification

  predicate IsJagged(n: string) {
    Contains(n, "var *") || Contains(n, "Jagged")
  }

  predicate IsBracketed(n: string) {
    Contains(n, "[") && Contains(n, "]")
  }

  /** The shape tier the markers of a normalised string call for. */
  function ShapeOf(n: string): Tier {
    if IsJagged(n) then Jagged else if IsBracketed(n) then FixedArray else Scalar
  }

  predicate HasBool(n: string) {
    Contains(ToLower(n), "bool")
  }

  /** The decision chain of `categorize_dtype` on a normalised string. */
  function Classify(n: string): (c: Category)
    ensures c.Tier() == ShapeOf(n)
  {
    if IsJagged(n) then
      if Contains(n, "float32") then VectorFloat
      else if Contains(n, "float64") || Contains(n, "double") then VectorDouble
      else if Contains(n, "int32") then VectorInt32
      else if Contains(n, "int64") then VectorInt64
      else if Contains(n, "uint32") then VectorUInt32
      else if Contains(n, "uint8") || HasBool(n) then VectorBoolOrByte
      else VectorOther
    else if IsBracketed(n) then
      if Contains(n, "float32") then ArrayFloat
      else if Contains(n, "float64") then ArrayDouble
      else ArrayOther
    else if Contains(n, "float32") then Float
    else if Contains(n, "float64") then Double
    else if Contains(n, "int32") then Int32
    else if Contains(n, "int64") then Int64
    else if Contains(n, "uint32") then UInt32
    else if HasBool(n) || Contains(n, "uint8") then BoolOrByte
    else Other
  }

  /** `categorize_dtype`: total on every interpretation string, and the tier
      of its answer is the one the shape markers of the normalised string call
      for: jagged iff `var *` or `Jagged` occurs, fixed array iff not jagged
      and both brackets occur, scalar otherwise. */
  function Categorize(interpretation: string): (c: Category)
    ensures c.Tier() == Jagged <==> IsJagged(Normalize(interpretation))
    ensures c.Tier() == FixedArray <==> !IsJagged(Normalize(interpretation)) && IsBracketed(Normalize(interpretation))
    ensures c.Tier() == Scalar <==> !IsJagged(Normalize(interpretation)) && !IsBracketed(Normalize(interpretation))
  {
    Classify(Normalize(interpretation))
  }

  // ---------------------------------------------------------------------------
  // The same classification as an ordered rule table

  /** A token test: plain containment, or containment in the lower-cased string. */
  datatype Test = Has(token: string) | HasIgnoringCase(token: string)

  /** A rule fires when any of its tests passes. */
  datatype Rule = Rule(anyOf: seq<Test>, category: Category)

  predicate Passes(n: string, t: Test) {
    match t
    case Has(tok) => Contains(n, tok)
    case HasIgnoringCase(tok) => Contains(ToLower(n), tok)
  }

  predicate Fires(n: string, rule: Rule) {
    exists i :: 0 <= i < |rule.anyOf| && Passes(n, rule.anyOf[i])
  }

  /** The category of the first rule that fires, or `fallback` when none does. */
  function FirstMatch(n: string, rules: seq<Rule>, fallback: Category): (c: Category)
    ensures (forall i :: 0 <= i < |rules| ==> !Fires(n, rules[i])) ==> c == fallback
    ensures forall i :: 0 <= i < |rules| && Fires(n, rules[i]) && (forall j :: 0 <= j < i ==> !Fires(n, rules[j]))
              ==> c == rules[i].category
    decreases |rules|
  {
    if |rules| == 0 then fallback
    else if Fires(n, rules[0]) then rules[0].category
    else FirstMatch(n, rules[1..], fallback)
  }

  const VectorRules: seq<Rule> := [
    Rule([Has("float32")], VectorFloat),
    Rule([Has("float64"), Has("double")], VectorDouble),
    Rule([Has("int32")], VectorInt32),
    Rule([Has("int64")], VectorInt64),
    Rule([Has("uint32")], VectorUInt32),
    Rule([Has("uint8"), HasIgnoringCase("bool")], VectorBoolOrByte)
  ]

  const ArrayRules: seq<Rule> := [
    Rule([Has("float32")], ArrayFloat),
    Rule([Has("float64")], ArrayDouble)
  ]

  const ScalarRules: seq<Rule> := [
    Rule([Has("float32")], Float),
    Rule([Has("float64")], Double),
    Rule([Has("int32")], Int32),
    Rule([Has("int64")], Int64),
    Rule([Has("uint32")], UInt32),
    Rule([HasIgnoringCase("bool"), Has("uint8")], BoolOrByte)
  ]

  /** Classification as "pick the tier, then the first rule of that tier's
      table that fires, else the tier's `other`". */
  function ClassifyByRules(n: string): Category {
    match ShapeOf(n)
    case Jagged => FirstMatch(n, VectorRules, VectorOther)
    case FixedArray => FirstMatch(n, ArrayRules, ArrayOther)
    case Scalar => FirstMatch(n, ScalarRules, Other)
  }

  lemma FiresOne(n: string, tok: string, c: Category)
    ensures Fires(n, Rule([Has(tok)], c)) <==> Contains(n, tok)
  {
    assert Passes(n, Rule([Has(tok)], c).anyOf[0]) <==> Contains(n, tok);
  }

  lemma FiresTwo(n: string, t1: Test, t2: Test, c: Category)
    ensures Fires(n, Rule([t1, t2], c)) <==> Passes(n, t1) || Passes(n, t2)
  {
    var r := Rule([t1, t2], c);
    assert r.anyOf[0] == t1 && r.anyOf[1] == t2;
  }

  /** The decision chain and the rule tables agree on every normalised string. */
  lemma {:induction false} ClassifyFollowsRules(n: string)
    ensures Classify(n) == ClassifyByRules(n)
  {
    FiresOne(n, "float32", VectorFloat);
    FiresTwo(n, Has("float64"), Has("double"), VectorDouble);
    FiresOne(n, "int32", VectorInt32);
    FiresOne(n, "int64", VectorInt64);
    FiresOne(n, "uint32", VectorUInt32);
    FiresTwo(n, Has("uint8"), HasIgnoringCase("bool"), VectorBoolOrByte);
    FiresOne(n, "float32", ArrayFloat);
    FiresOne(n, "float64", ArrayDouble);
    FiresOne(n, "float32", Float);
    FiresOne(n, "float64", Double);
    FiresOne(n, "int32", Int32);
    FiresOne(n, "int64", Int64);
    FiresOne(n, "uint32", UInt32);
    FiresTwo(n, HasIgnoringCase("bool"), Has("uint8"), BoolOrByte);
    match ShapeOf(n)
    case Jagged =>
      var rs := VectorRules;
      assert rs[1..][1..][1..][1..][1..][1..] == [];
    case FixedArray =>
      var rs := ArrayRules;
      assert rs[1..][1..] == [];
    case Scalar =>
      var rs := ScalarRules;
      assert rs[1..][1..][1..][1..][1..][1..] == [];
  }

  // ---------------------------------------------------------------------------
  // First match wins: the unsigned tokens are read as signed

  lemma UnsignedContainsSigned()
    ensures Contains("uint32", "int32") && Contains("uint64", "int64")
  {
    assert "uint32"[1..] == "int32";
    assert "uint64"[1..] == "int64";
  }

  /** Every string containing `uint32` also contains `int32`, which is checked
      first; so a branch with `uint32` in it is labelled `int32` (or
      `vector<int32>`) unless a float token comes earlier, and in the
      fixed-array tier it falls to `array<other>`. */
  lemma UInt32ReadsAsInt32(n: string)
    requires Contains(n, "uint32")
    requires !Contains(n, "float32") && !Contains(n, "float64")
    ensures IsJagged(n) && !Contains(n, "double") ==> Classify(n) == VectorInt32
    ensures !IsJagged(n) && IsBracketed(n) ==> Classify(n) == ArrayOther
    ensures !IsJagged(n) && !IsBracketed(n) ==> Classify(n) == Int32
  {
    UnsignedContainsSigned();
    ContainsTransitive(n, "uint32", "int32");
  }

  /** Likewise `uint64` is read as `int64` when no earlier token occurs. */
  lemma UInt64ReadsAsInt64(n: string)
    requires Contains(n, "uint64")
    requires !Contains(n, "float32") && !Contains(n, "float64") && !Contains(n, "int32")
    ensures IsJagged(n) && !Contains(n, "double") ==> Classify(n) == VectorInt64
    ensures !IsJagged(n) && !IsBracketed(n) ==> Classify(n) == Int64
  {
    UnsignedContainsSigned();
    ContainsTransitive(n, "uint64", "int64");
  }

  /** The `uint32` labels can never be returned. */
  lemma UInt32Unreachable(s: string)
    ensures Categorize(s) != VectorUInt32 && Categorize(s) != UInt32
  {
    var n := Normalize(s);
    if Contains(n, "uint32") {
      UnsignedContainsSigned();
      ContainsTransitive(n, "uint32", "int32");
    }
  }

  /** With no numeric token at all, each tier answers its `other` category. */
  lemma OtherWhenNoToken(n: string)
    requires !Contains(n, "float32") && !Contains(n, "float64") && !Contains(n, "double")
    requires !Contains(n, "int32") && !Contains(n, "int64") && !Contains(n, "uint32")
    requires !Contains(n, "uint8") && !HasBool(n)
    ensures Classify(n) == match ShapeOf(n) case Jagged => VectorOther case FixedArray => ArrayOther case Scalar => Other
  {
  }

  // ---------------------------------------------------------------------------
  // Endianness does not matter

  /** What a width code must satisfy for its two markers to be rewritten
      without interfering with the text around them. */
  predicate CodeOk(c: WidthCode) {
    && c.kind != '<' && c.kind != '>' && c.width != '<' && c.width != '>'
    && |c.canonical| >= 2
    && '<' !in c.canonical && '>' !in c.canonical
    && c.canonical[0] != c.width
    && (c.canonical[0] != c.kind || c.canonical[1] != c.width)
  }

  predicate CodesOk(codes: seq<WidthCode>) {
    && (forall i :: 0 <= i < |codes| ==> CodeOk(codes[i]))
    && (forall i, j :: 0 <= i < j < |codes| ==>
          codes[i].kind != codes[j].kind || codes[i].width != codes[j].width)
  }

  lemma CodesAreOk()
    ensures CodesOk(Codes)
  {
    forall i | 0 <= i < |Codes|
      ensures CodeOk(Codes[i])
    {
      var t := Codes[i].canonical;
      assert t[0] != '<' && t[0] != '>' && t[1] != '<' && t[1] != '>';
      assert forall k :: 0 <= k < |t| ==> t[k] != '<' && t[k] != '>';
    }
  }

  /** A marker of another code passes through one rewrite line untouched. */
  lemma OtherMarkerUntouched(a: string, e: char, c: WidthCode, b: string, d: WidthCode)
    requires e == '<' || e == '>'
    requires CodeOk(c) && CodeOk(d)
    requires c.kind != d.kind || c.width != d.width
    ensures RewriteCode(a + Marker(e, c) + b, d) == RewriteCode(a, d) + Marker(e, c) + RewriteCode(b, d)
  {
    var m := Marker(e, c);
    var p1 := Marker('>', d);
    var p2 := Marker('<', d);
    SameLengthContains(m, p1);
    SameLengthContains(m, p2);
    assert m != p1 && m != p2 by {
      assert m[1] != p1[1] || m[2] != p1[2];
    }
    ReplaceAbsent(m, p1, d.canonical);
    ReplaceAbsent(m, p2, d.canonical);
    ReplaceAround(a, m, b, p1, d.canonical);
    var a1 := ReplaceAll(a, p1, d.canonical);
    var b1 := ReplaceAll(b, p1, d.canonical);
    ReplaceAround(a1, m, b1, p2, d.canonical);
  }

  /** A marker of `c` itself, of either endianness, becomes `c`'s canonical name. */
  lemma {:induction false} OwnMarkerRewritten(a: string, e: char, c: WidthCode, b: string)
    requires e == '<' || e == '>'
    requires CodeOk(c)
    ensures RewriteCode(a + Marker(e, c) + b, c)
         == ReplaceAll(ReplaceAll(a, Marker('>', c), c.canonical), Marker('<', c), c.canonical)
          + c.canonical
          + ReplaceAll(ReplaceAll(b, Marker('>', c), c.canonical), Marker('<', c), c.canonical)
  {
    var m := Marker(e, c);
    var t := c.canonical;
    var p1 := Marker('>', c);
    var p2 := Marker('<', c);
    var a1 := ReplaceAll(a, p1, t);
    var b1 := ReplaceAll(b, p1, t);
    assert ReplaceAll(p1, p1, t) == t by {
      assert p1[3..] == [];
    }
    assert ReplaceAll(p2, p2, t) == t by {
      assert p2[3..] == [];
    }
    FirstCharAbsent(t, p2);
    ReplaceAbsent(t, p2, t);
    ReplaceAround(a, m, b, p1, t);
    if e == '>' {
      ReplaceAround(a1, t, b1, p2, t);
    } else {
      FirstCharAbsent(m, p1);
      ReplaceAbsent(m, p1, t);
      ReplaceAround(a1, m, b1, p2, t);
    }
  }

  /** A canonical name a rewrite line for `d` cannot touch: it holds no
      endianness character and cannot complete a marker of `d` across its
      left edge. */
  predicate Survives(t: string, d: WidthCode) {
    && |t| >= 2
    && '<' !in t && '>' !in t
    && t[0] != d.width && (t[0] != d.kind || t[1] != d.width)
  }

  /** Every canonical name survives the rewrite lines that come after its own. */
  lemma CanonicalsSurvive()
    ensures forall i, j :: 0 <= i < j < |Codes| ==> Survives(Codes[i].canonical, Codes[j])
  {
    forall i | 0 <= i < |Codes|
      ensures '<' !in Codes[i].canonical && '>' !in Codes[i].canonical
    {
      var t := Codes[i].canonical;
      assert forall k :: 0 <= k < |t| ==> t[k] != '<' && t[k] != '>';
    }
  }

  /** Text that no rewrite line can touch comes through them all unchanged,
      and the text on its two sides is rewritten independently. */
  lemma {:induction false} TokenSurvives(a: string, t: string, b: string, codes: seq<WidthCode>)
    requires forall j :: 0 <= j < |codes| ==> Survives(t, codes[j])
    ensures RewriteCodes(a + t + b, codes) == RewriteCodes(a, codes) + t + RewriteCodes(b, codes)
    decreases |codes|
  {
    if |codes| > 0 {
      var d := codes[0];
      var p1, p2 := Marker('>', d), Marker('<', d);
      assert Survives(t, d);
      assert t[|t| - 1] in t && t[|t| - 2] in t;
      FirstCharAbsent(t, p1);
      FirstCharAbsent(t, p2);
      ReplaceAbsent(t, p1, d.canonical);
      ReplaceAbsent(t, p2, d.canonical);
      ReplaceAround(a, t, b, p1, d.canonical);
      ReplaceAround(ReplaceAll(a, p1, d.canonical), t, ReplaceAll(b, p1, d.canonical), p2, d.canonical);
      assert forall j :: 0 <= j < |codes[1..]| ==> codes[1..][j] == codes[j + 1];
      TokenSurvives(RewriteCode(a, d), t, RewriteCode(b, d), codes[1..]);
    }
  }

  /** A marker of `codes[k]`, of either endianness, leaves that code's
      canonical name in the rewritten text, when the later lines cannot
      touch the name. */
  lemma {:induction false} MarkerBecomesToken(a: string, e: char, b: string, codes: seq<WidthCode>, k: nat)
    requires e == '<' || e == '>'
    requires CodesOk(codes) && k < |codes|
    requires forall j :: k < j < |codes| ==> Survives(codes[k].canonical, codes[j])
    ensures Contains(RewriteCodes(a + Marker(e, codes[k]) + b, codes), codes[k].canonical)
    decreases k
  {
    var c, rest := codes[k], codes[1..];
    assert forall j :: 0 <= j < |rest| ==> rest[j] == codes[j + 1];
    if k == 0 {
      var t := c.canonical;
      OwnMarkerRewritten(a, e, c, b);
      TokenSurvives(RewriteCode(a, c), t, RewriteCode(b, c), rest);
      ContainsMiddle(RewriteCodes(RewriteCode(a, c), rest), t, RewriteCodes(RewriteCode(b, c), rest));
    } else {
      OtherMarkerUntouched(a, e, c, b, codes[0]);
      assert rest[k - 1] == c;
      MarkerBecomesToken(RewriteCode(a, codes[0]), e, RewriteCode(b, codes[0]), rest, k - 1);
    }
  }

  /** After normalisation, a `>` or `<` marker of a listed code always leaves
      that code's canonical name in the string the classifier reads. */
  lemma NormalizedMarkerToken(a: string, e: char, b: string, k: nat)
    requires e == '<' || e == '>'
    requires k < |Codes|
    ensures Contains(Normalize(a + Marker(e, Codes[k]) + b), Codes[k].canonical)
  {
    CodesAreOk();
    CanonicalsSurvive();
    MarkerBecomesToken(a, e, b, Codes, k);
  }

  /** A raw `>u4` or `<u4` marker is read as a signed 32-bit type: a jagged
      branch is `vector<int32>` unless a float token occurs, a scalar is
      `int32` unless a float token occurs, and in no case is it a `uint32`
      label. */
  lemma U4ReadsAsInt32(a: string, e: char, b: string)
    requires e == '<' || e == '>'
    ensures var s := a + Marker(e, Codes[4]) + b; var n := Normalize(s);
      && (IsJagged(n) ==> Categorize(s) in {VectorFloat, VectorDouble, VectorInt32})
      && (!IsJagged(n) && !IsBracketed(n) ==> Categorize(s) in {Float, Double, Int32})
      && ((IsJagged(n) && !Contains(n, "float32") && !Contains(n, "float64") && !Contains(n, "double"))
            ==> Categorize(s) == VectorInt32)
      && ((!IsJagged(n) && !IsBracketed(n) && !Contains(n, "float32") && !Contains(n, "float64"))
            ==> Categorize(s) == Int32)
  {
    var n := Normalize(a + Marker(e, Codes[4]) + b);
    NormalizedMarkerToken(a, e, b, 4);
    UnsignedContainsSigned();
    ContainsTransitive(n, "uint32", "int32");
  }

  /** A raw `>u8` or `<u8` marker is read as a signed type: a jagged branch
      is `vector<int64>` and a scalar `int64` unless an earlier token occurs. */
  lemma U8ReadsAsInt64(a: string, e: char, b: string)
    requires e == '<' || e == '>'
    ensures var s := a + Marker(e, Codes[5]) + b; var n := Normalize(s);
      && (IsJagged(n) ==> Categorize(s) in {VectorFloat, VectorDouble, VectorInt32, VectorInt64})
      && (!IsJagged(n) && !IsBracketed(n) ==> Categorize(s) in {Float, Double, Int32, Int64})
      && ((IsJagged(n) && !Contains(n, "float32") && !Contains(n, "float64") && !Contains(n, "double")
             && !Contains(n, "int32")) ==> Categorize(s) == VectorInt64)
      && ((!IsJagged(n) && !IsBracketed(n) && !Contains(n, "float32") && !Contains(n, "float64")
             && !Contains(n, "int32")) ==> Categorize(s) == Int64)
  {
    var n := Normalize(a + Marker(e, Codes[5]) + b);
    NormalizedMarkerToken(a, e, b, 5);
    UnsignedContainsSigned();
    ContainsTransitive(n, "uint64", "int64");
  }

  /** Swapping one `>` marker of a listed code for its `<` twin leaves the
      rewritten string unchanged. */
  lemma {:induction false} SwapInvisible(a: string, b: string, codes: seq<WidthCode>, c: WidthCode)
    requires CodesOk(codes) && c in codes
    ensures RewriteCodes(a + Marker('>', c) + b, codes) == RewriteCodes(a + Marker('<', c) + b, codes)
    decreases |codes|
  {
    var d := codes[0];
    if d == c {
      OwnMarkerRewritten(a, '>', c, b);
      OwnMarkerRewritten(a, '<', c, b);
    } else {
      var j :| 0 <= j < |codes| && codes[j] == c;
      assert j > 0;
      OtherMarkerUntouched(a, '>', c, b, d);
      OtherMarkerUntouched(a, '<', c, b, d);
      assert codes[1..][j - 1] == c;
      SwapInvisible(RewriteCode(a, d), RewriteCode(b, d), codes[1..], c);
    }
  }

  /** Endianness does not matter: replacing a big-endian marker (`>f4`,
      `>f8`, `>i4`, `>i8`, `>u4`, `>u8`) by its little-endian twin anywhere in
      an interpretation string never changes the category. */
  lemma EndiannessIrrelevant(a: string, b: string, k: nat)
    requires k < |Codes|
    ensures Categorize(a + Marker('>', Codes[k]) + b) == Categorize(a + Marker('<', Codes[k]) + b)
  {
    CodesAreOk();
    SwapInvisible(a, b, Codes, Codes[k]);
  }
}
