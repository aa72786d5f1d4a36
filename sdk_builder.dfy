/** The SDK builder's shared helpers (aptos-move/aptos-sdk-builder/src/common.rs):
    how a Move type tag becomes a serde-reflection format and a mangled name,
    how the ABIs of a package become the `ScriptCall` enum, and the small
    filters and text clean-up the code generators share.

    `type_not_allowed` panics; here it is the `Err` case of a `Result`
    carrying the tag it would have reported. */
module SdkBuilder {
  import opened Wrappers
  import Strings

  /* ---------- Type tags and formats ---------- */

  /** A struct type: its module address, module name, name and type arguments. */
  datatype StructTag = StructTag(address: string, moduleName: string, name: string, typeParams: seq<TypeTag>)

  /** Move's `TypeTag`. */
  datatype TypeTag =
    | Bool
    | U8
    | U64
    | U128
    | Address
    | Signer
    | Vector(elem: TypeTag)
    | Struct(tag: StructTag)

  /** The part of serde-reflection's `Format` the builder produces. */
  datatype Format =
    | FBool
    | FU8
    | FU64
    | FU128
    | TypeName(typeName: string)
    | Bytes
    | Seq(elem: Format)

  /** A name paired with a value (serde-reflection's `Named`). */
  datatype Named<T> = Named(name: string, value: T)

  const AccountAddressName := "AccountAddress"
  const TypeTagName := "TypeTag"

  /** The argument types a transaction script may take: the four primitive
      types and `address`, byte strings, vectors of byte strings, and
      vectors of `bool`, `u64`, `u128` and `address`. */
  predicate Allowed(t: TypeTag) {
    || Primitive(t)
    || (t.Vector? && (Primitive(t.elem) || t.elem == Vector(U8)))
  }

  /** `bool`, `u8`, `u64`, `u128` or `address`. */
  predicate Primitive(t: TypeTag) {
    t.Bool? || t.U8? || t.U64? || t.U128? || t.Address?
  }

  /** `quote_type_as_format`; the error is the tag `type_not_allowed` is
      called with, the innermost offending one. */
  function QuoteTypeAsFormat(t: TypeTag): (r: Result<Format, TypeTag>)
  {
    match t
    case Bool => Ok(FBool)
    case U8 => Ok(FU8)
    case U64 => Ok(FU64)
    case U128 => Ok(FU128)
    case Address => Ok(TypeName(AccountAddressName))
    case Vector(e) =>
      (match e
       case U8 => Ok(Bytes)
       case Vector(e2) => if e2 == U8 then Ok(Seq(Bytes)) else Err(e2)
       case Bool => Ok(Seq(FBool))
       case U64 => Ok(Seq(FU64))
       case U128 => Ok(Seq(FU128))
       case Address => Ok(Seq(TypeName(AccountAddressName)))
       case _ => Err(e))
    case _ => Err(t)
  }

  /** `mangle_type`: the name of a type in generated helper functions. */
  function MangleType(t: TypeTag): (r: Result<string, TypeTag>)
    decreases t
  {
    match t
    case Bool => Ok("bool")
    case U8 => Ok("u8")
    case U64 => Ok("u64")
    case U128 => Ok("u128")
    case Address => Ok("address")
    case Vector(e) =>
      (match e
       case U8 => Ok("u8vector")
       case Vector(e2) => if e2 == U8 then Ok("vecbytes") else Err(e2)
       case _ =>
         match MangleType(e)
         case Err(bad) => Err(bad)
         case Ok(name) => Ok("vec" + name))
    case _ => Err(t)
  }

  /** The quoting accepts exactly the allowed tags. */
  lemma QuoteAcceptsAllowed(t: TypeTag)
    ensures QuoteTypeAsFormat(t).Ok? <==> Allowed(t)
  {
  }

  /** Mangling accepts exactly the tags quoting accepts, and on a refused
      tag both report the same offending tag. */
  lemma MangleAgreesWithQuote(t: TypeTag)
    ensures MangleType(t).Ok? <==> QuoteTypeAsFormat(t).Ok?
    ensures MangleType(t).Err? ==> MangleType(t).error == QuoteTypeAsFormat(t).error
  {
    if t.Vector? && !t.elem.Vector? && !Primitive(t.elem) {
      assert MangleType(t.elem) == Err(t.elem);
    }
  }

  /** The vector names: `u8vector`, `vecbytes`, and `vec` before the
      element's name otherwise. */
  lemma MangleVector(e: TypeTag)
    requires Allowed(Vector(e))
    ensures e == U8 ==> MangleType(Vector(e)) == Ok("u8vector")
    ensures e == Vector(U8) ==> MangleType(Vector(e)) == Ok("vecbytes")
    ensures e != U8 && !e.Vector? ==> MangleType(e).Ok? && MangleType(Vector(e)) == Ok("vec" + MangleType(e).value)
  {
  }

  /** Reads a mangled name back. */
  function Demangle(s: string): (r: Option<TypeTag>)
    ensures r.Some? ==> Allowed(r.value)
  {
    if s == "bool" then Some(Bool)
    else if s == "u8" then Some(U8)
    else if s == "u64" then Some(U64)
    else if s == "u128" then Some(U128)
    else if s == "address" then Some(Address)
    else if s == "u8vector" then Some(Vector(U8))
    else if s == "vecbytes" then Some(Vector(Vector(U8)))
    else if |s| > 3 && s[..3] == "vec" then
      match Demangle(s[3..])
      case Some(e) => if Primitive(e) && e != U8 then Some(Vector(e)) else None
      case None => None
    else None
  }

  /** Demangling undoes mangling. */
  lemma DemangleMangle(t: TypeTag)
    requires MangleType(t).Ok?
    ensures Demangle(MangleType(t).value) == Some(t)
  {
    if t.Vector? && !t.elem.Vector? && t.elem != U8 {
      var name := MangleType(t.elem).value;
      var s := "vec" + name;
      assert s[..3] == "vec" && s[3..] == name;
    }
  }

  /** Distinct accepted tags get distinct names. */
  lemma MangleInjective(a: TypeTag, b: TypeTag)
    requires MangleType(a).Ok? && MangleType(b).Ok?
    requires MangleType(a).value == MangleType(b).value
    ensures a == b
  {
    DemangleMangle(a);
    DemangleMangle(b);
  }

  /** The type names a format refers to. */
  function TypeNames(f: Format): set<string> {
    match f
    case TypeName(n) => {n}
    case Seq(e) => TypeNames(e)
    case _ => {}
  }

  /* ---------- ABIs and the `ScriptCall` enum ---------- */

  /** A named argument of a script. */
  datatype ArgumentAbi = ArgumentAbi(name: string, typeTag: TypeTag)

  /** A named type parameter of a script. */
  datatype TypeArgumentAbi = TypeArgumentAbi(name: string)

  datatype TransactionScriptAbi = TransactionScriptAbi(
    name: string, doc: string, code: seq<int>, tyArgs: seq<TypeArgumentAbi>, args: seq<ArgumentAbi>)

  datatype ScriptFunctionAbi = ScriptFunctionAbi(
    name: string, moduleAddress: string, moduleName: string, doc: string,
    tyArgs: seq<TypeArgumentAbi>, args: seq<ArgumentAbi>)

  /** `ScriptABI`: a transaction script or a script function. */
  datatype ScriptAbi = TransactionScript(ts: TransactionScriptAbi) | ScriptFunction(sf: ScriptFunctionAbi)
  {
    function Name(): string {
      match this
      case TransactionScript(ts) => ts.name
      case ScriptFunction(sf) => sf.name
    }

    function TyArgs(): seq<TypeArgumentAbi> {
      match this
      case TransactionScript(ts) => ts.tyArgs
      case ScriptFunction(sf) => sf.tyArgs
    }

    function Args(): seq<ArgumentAbi> {
      match this
      case TransactionScript(ts) => ts.args
      case ScriptFunction(sf) => sf.args
    }
  }

  /** `VariantFormat::Struct`: a variant with named fields. */
  datatype VariantFormat = StructVariant(fields: seq<Named<Format>>)

  const U32Modulus := 0x1_0000_0000

  /** `index as u32`: the index modulo 2^32. */
  function AsU32(index: nat): (k: nat)
    ensures k < U32Modulus
    ensures index < U32Modulus ==> k == index
  {
    index % U32Modulus
  }

  /** The enum's variants, keyed by `index as u32`. */
  type Variants = map<nat, Named<VariantFormat>>

  /** `quote_type_parameter_as_field`. */
  function TypeParameterField(ty: TypeArgumentAbi): Named<Format> {
    Named(ty.name, TypeName(TypeTagName))
  }

  /** The type-parameter fields, one per type parameter, in order. */
  function TypeParameterFields(tys: seq<TypeArgumentAbi>): (fs: seq<Named<Format>>)
    ensures |fs| == |tys|
    ensures forall k :: 0 <= k < |tys| ==> fs[k] == Named(tys[k].name, TypeName(TypeTagName))
    decreases |tys|
  {
    if tys == [] then [] else TypeParameterFields(tys[..|tys| - 1]) + [TypeParameterField(tys[|tys| - 1])]
  }

  /** `quote_parameter_as_field` over the arguments, in order; the first
      argument whose type is refused fails. */
  function ParameterFields(args: seq<ArgumentAbi>): Result<seq<Named<Format>>, TypeTag>
    decreases |args|
  {
    if args == [] then Ok([])
    else
      var init := args[..|args| - 1];
      var last := args[|args| - 1];
      match ParameterFields(init)
      case Err(bad) => Err(bad)
      case Ok(fs) =>
        match QuoteTypeAsFormat(last.typeTag)
        case Err(bad) => Err(bad)
        case Ok(f) => Ok(fs + [Named(last.name, f)])
  }

  /** The argument fields are built exactly when every argument type is
      allowed: one field per argument, named after it and holding its
      format; otherwise the error is the tag of a refused argument. */
  lemma {:induction false} ParameterFieldsSpec(args: seq<ArgumentAbi>)
    ensures var r := ParameterFields(args);
            && (r.Ok? <==> forall k :: 0 <= k < |args| ==> Allowed(args[k].typeTag))
            && (r.Ok? ==> |r.value| == |args|
                          && forall k :: 0 <= k < |args| ==>
                               r.value[k] == Named(args[k].name, QuoteTypeAsFormat(args[k].typeTag).value))
            && (r.Err? ==> exists k :: 0 <= k < |args| && !Allowed(args[k].typeTag)
                                       && r.error == QuoteTypeAsFormat(args[k].typeTag).error)
    decreases |args|
  {
    if args != [] {
      var n := |args| - 1;
      var init := args[..n];
      ParameterFieldsSpec(init);
      QuoteAcceptsAllowed(args[n].typeTag);
      assert forall k :: 0 <= k < n ==> init[k] == args[k];
      var r := ParameterFields(args);
      if r.Err? && ParameterFields(init).Err? {
        var k :| 0 <= k < n && !Allowed(init[k].typeTag) && ParameterFields(init).error == QuoteTypeAsFormat(init[k].typeTag).error;
        assert !Allowed(args[k].typeTag);
      }
    }
  }

  /** The variant name: the camel-cased module name before the camel-cased
      script name for a script function, the camel-cased name otherwise.
      `camel` is heck's `to_camel_case`. */
  function VariantName(abi: ScriptAbi, camel: string -> string): string {
    match abi
    case ScriptFunction(sf) => camel(sf.moduleName) + camel(abi.Name())
    case TransactionScript(_) => camel(abi.Name())
  }

  /** The fields of one ABI's variant: type-parameter fields, then argument fields. */
  function AbiFields(abi: ScriptAbi): Result<seq<Named<Format>>, TypeTag> {
    match ParameterFields(abi.Args())
    case Err(bad) => Err(bad)
    case Ok(fs) => Ok(TypeParameterFields(abi.TyArgs()) + fs)
  }

  /** A variant's fields: every type parameter as a `TypeTag` field, then
      every argument as a field of its format, so |ty_args| + |args| fields;
      built exactly when every argument type is allowed. */
  lemma AbiFieldsSpec(abi: ScriptAbi)
    ensures var r, tys, args := AbiFields(abi), abi.TyArgs(), abi.Args();
            && (r.Ok? <==> forall k :: 0 <= k < |args| ==> Allowed(args[k].typeTag))
            && (r.Ok? ==> && |r.value| == |tys| + |args|
                          && (forall k :: 0 <= k < |tys| ==> r.value[k] == Named(tys[k].name, TypeName(TypeTagName)))
                          && (forall k :: 0 <= k < |args| ==>
                                r.value[|tys| + k] == Named(args[k].name, QuoteTypeAsFormat(args[k].typeTag).value)))
  {
    ParameterFieldsSpec(abi.Args());
  }

  /** The variant of one ABI. */
  function AbiVariant(abi: ScriptAbi, camel: string -> string): Result<Named<VariantFormat>, TypeTag> {
    match AbiFields(abi)
    case Err(bad) => Err(bad)
    case Ok(fields) => Ok(Named(VariantName(abi, camel), StructVariant(fields)))
  }

  /** Builds the variant of one ABI, or fails with the refused tag. */
  type VariantBuilder = ScriptAbi -> Result<Named<VariantFormat>, TypeTag>

  /** The variants `variantOf` builds for the first `i` ABIs, inserted in
      order at key `index as u32`; the first failure, in ABI order, fails. */
  function VariantsUpTo(variantOf: VariantBuilder, abis: seq<ScriptAbi>, i: nat): Result<Variants, TypeTag>
    requires i <= |abis|
    decreases i
  {
    if i == 0 then Ok(map[])
    else
      match VariantsUpTo(variantOf, abis, i - 1)
      case Err(bad) => Err(bad)
      case Ok(vs) =>
        match variantOf(abis[i - 1])
        case Err(bad) => Err(bad)
        case Ok(v) => Ok(vs[AsU32(i - 1) := v])
  }

  /** The builder `make_abi_enum_container` uses. */
  function AbiVariantOf(camel: string -> string): VariantBuilder {
    abi => AbiVariant(abi, camel)
  }

  /** The `ScriptCall` enum's variants. */
  function EnumVariants(abis: seq<ScriptAbi>, camel: string -> string): Result<Variants, TypeTag> {
    VariantsUpTo(AbiVariantOf(camel), abis, |abis|)
  }

  lemma {:induction false} VariantsUpToOk(variantOf: VariantBuilder, abis: seq<ScriptAbi>, i: nat)
    requires i <= |abis|
    ensures VariantsUpTo(variantOf, abis, i).Ok? <==> forall k :: 0 <= k < i ==> variantOf(abis[k]).Ok?
    decreases i
  {
    if i > 0 {
      VariantsUpToOk(variantOf, abis, i - 1);
    }
  }

  /** Every argument type of the first `i` ABIs is allowed. */
  ghost predicate ArgsAllowed(abis: seq<ScriptAbi>, i: nat)
    requires i <= |abis|
  {
    forall k, j :: 0 <= k < i && 0 <= j < |abis[k].Args()| ==> Allowed(abis[k].Args()[j].typeTag)
  }

  /** The enum is built exactly when every argument type of every ABI is allowed. */
  lemma EnumVariantsOk(abis: seq<ScriptAbi>, camel: string -> string)
    ensures EnumVariants(abis, camel).Ok? <==> ArgsAllowed(abis, |abis|)
  {
    VariantsUpToOk(AbiVariantOf(camel), abis, |abis|);
    forall k | 0 <= k < |abis|
      ensures AbiVariantOf(camel)(abis[k]).Ok?
              <==> forall j :: 0 <= j < |abis[k].Args()| ==> Allowed(abis[k].Args()[j].typeTag)
    {
      AbiFieldsSpec(abis[k]);
    }
  }

  /** The indices below `n`. */
  function Indices(n: nat): (s: set<nat>)
    ensures forall k: nat :: k in s <==> k < n
  {
    if n == 0 then {} else Indices(n - 1) + {n - 1}
  }

  /** One more ABI adds its variant at its own index. */
  lemma VariantsUpToStep(variantOf: VariantBuilder, abis: seq<ScriptAbi>, i: nat)
    requires 0 < i <= |abis| <= U32Modulus && VariantsUpTo(variantOf, abis, i).Ok?
    ensures VariantsUpTo(variantOf, abis, i - 1).Ok? && variantOf(abis[i - 1]).Ok?
    ensures VariantsUpTo(variantOf, abis, i).value
            == VariantsUpTo(variantOf, abis, i - 1).value[i - 1 := variantOf(abis[i - 1]).value]
  {
    assert AsU32(i - 1) == i - 1;
  }

  lemma {:induction false} VariantsUpToKeys(variantOf: VariantBuilder, abis: seq<ScriptAbi>, i: nat)
    requires i <= |abis| <= U32Modulus && VariantsUpTo(variantOf, abis, i).Ok?
    ensures VariantsUpTo(variantOf, abis, i).value.Keys == Indices(i)
    ensures forall k: nat :: k < i ==>
              variantOf(abis[k]).Ok? && VariantsUpTo(variantOf, abis, i).value[k] == variantOf(abis[k]).value
    decreases i
  {
    if i > 0 {
      VariantsUpToStep(variantOf, abis, i);
      VariantsUpToKeys(variantOf, abis, i - 1);
    }
  }

  /** The next ABI either fails the whole enum or adds its variant. */
  lemma VariantsUpToNext(variantOf: VariantBuilder, abis: seq<ScriptAbi>, i: nat, vs: Variants)
    requires i < |abis| && VariantsUpTo(variantOf, abis, i) == Ok(vs)
    ensures variantOf(abis[i]).Err? ==> VariantsUpTo(variantOf, abis, |abis|) == Err(variantOf(abis[i]).error)
    ensures variantOf(abis[i]).Ok? ==> VariantsUpTo(variantOf, abis, i + 1) == Ok(vs[AsU32(i) := variantOf(abis[i]).value])
  {
    if variantOf(abis[i]).Err? {
      VariantsUpToErr(variantOf, abis, i + 1);
    }
  }

  /** While the indices fit in a `u32`, the enum has one variant per ABI,
      keyed 0 to n-1 in input order. */
  lemma EnumVariantsKeys(abis: seq<ScriptAbi>, camel: string -> string)
    requires EnumVariants(abis, camel).Ok? && |abis| <= U32Modulus
    ensures EnumVariants(abis, camel).value.Keys == Indices(|abis|)
    ensures forall k: nat :: k < |abis| ==>
              AbiVariant(abis[k], camel).Ok? && EnumVariants(abis, camel).value[k] == AbiVariant(abis[k], camel).value
  {
    VariantsUpToKeys(AbiVariantOf(camel), abis, |abis|);
  }

  /** A failure among the first `i` ABIs fails the whole enum with its tag. */
  lemma {:induction false} VariantsUpToErr(variantOf: VariantBuilder, abis: seq<ScriptAbi>, i: nat)
    requires i <= |abis| && VariantsUpTo(variantOf, abis, i).Err?
    ensures VariantsUpTo(variantOf, abis, |abis|) == VariantsUpTo(variantOf, abis, i)
    decreases |abis| - i
  {
    if i < |abis| {
      VariantsUpToErr(variantOf, abis, i + 1);
    }
  }

  /** The loops of `make_abi_enum_container` that build one variant's
      fields: type parameters first, then arguments. */
  method VariantFields(abi: ScriptAbi) returns (r: Result<seq<Named<Format>>, TypeTag>)
    ensures r == AbiFields(abi)
  {
    var fields: seq<Named<Format>> := [];
    var tys := abi.TyArgs();
    var j := 0;
    while j < |tys|
      invariant 0 <= j <= |tys|
      invariant fields == TypeParameterFields(tys[..j])
    {
      assert tys[..j + 1][..j] == tys[..j];
      fields := fields + [TypeParameterField(tys[j])];
      j := j + 1;
    }
    assert tys[..j] == tys;
    var args := abi.Args();
    var argFields: seq<Named<Format>> := [];
    j := 0;
    while j < |args|
      invariant 0 <= j <= |args|
      invariant ParameterFields(args[..j]) == Ok(argFields)
    {
      assert args[..j + 1][..j] == args[..j];
      var quoted := QuoteTypeAsFormat(args[j].typeTag);
      if quoted.Err? {
        assert ParameterFields(args[..j + 1]) == Err(quoted.error);
        ParameterFieldsPrefixErr(args, j + 1);
        return Err(quoted.error);
      }
      argFields := argFields + [Named(args[j].name, quoted.value)];
      j := j + 1;
    }
    assert args[..j] == args;
    r := Ok(fields + argFields);
  }

  /** `make_abi_enum_container`. */
  method MakeAbiEnumContainer(abis: seq<ScriptAbi>, camel: string -> string) returns (r: Result<Variants, TypeTag>)
    ensures r == EnumVariants(abis, camel)
  {
    var variants: Variants := map[];
    var index := 0;
    while index < |abis|
      invariant 0 <= index <= |abis|
      invariant VariantsUpTo(AbiVariantOf(camel), abis, index) == Ok(variants)
    {
      var abi := abis[index];
      var fields := VariantFields(abi);
      var name := VariantName(abi, camel);
      assert AbiVariantOf(camel)(abi)
          == if fields.Err? then Err(fields.error) else Ok(Named(name, StructVariant(fields.value)));
      VariantsUpToNext(AbiVariantOf(camel), abis, index, variants);
      if fields.Err? {
        return Err(fields.error);
      }
      variants := variants[AsU32(index) := Named(name, StructVariant(fields.value))];
      index := index + 1;
    }
    r := Ok(variants);
  }

  /** A refused argument in a prefix of the arguments fails the whole list
      with the same tag. */
  lemma {:induction false} ParameterFieldsPrefixErr(args: seq<ArgumentAbi>, n: nat)
    requires n <= |args| && ParameterFields(args[..n]).Err?
    ensures ParameterFields(args) == ParameterFields(args[..n])
    decreases |args| - n
  {
    if n < |args| {
      assert args[..n + 1][..n] == args[..n];
      ParameterFieldsPrefixErr(args, n + 1);
    } else {
      assert args[..n] == args;
    }
  }

  /** The argument types of all ABIs; type parameters are not types here. */
  ghost function ArgumentTypes(abis: seq<ScriptAbi>): set<TypeTag> {
    set k, j | 0 <= k < |abis| && 0 <= j < |abis[k].Args()| :: abis[k].Args()[j].typeTag
  }

  /** `get_required_helper_types`. */
  method GetRequiredHelperTypes(abis: seq<ScriptAbi>) returns (required: set<TypeTag>)
    ensures required == ArgumentTypes(abis)
  {
    required := {};
    var i := 0;
    while i < |abis|
      invariant 0 <= i <= |abis|
      invariant required == ArgumentTypes(abis[..i])
    {
      var args := abis[i].Args();
      var j := 0;
      ghost var before := required;
      while j < |args|
        invariant 0 <= j <= |args|
        invariant required == before + set m | 0 <= m < j :: args[m].typeTag
      {
        required := required + {args[j].typeTag};
        j := j + 1;
      }
      ArgumentTypesSnoc(abis, i);
      i := i + 1;
    }
    assert abis[..i] == abis;
  }

  lemma ArgumentTypesSnoc(abis: seq<ScriptAbi>, i: nat)
    requires i < |abis|
    ensures ArgumentTypes(abis[..i + 1])
            == ArgumentTypes(abis[..i]) + set m | 0 <= m < |abis[i].Args()| :: abis[i].Args()[m].typeTag
  {
    var p, q := abis[..i + 1], abis[..i];
    forall t | t in ArgumentTypes(p)
      ensures t in ArgumentTypes(q) + set m | 0 <= m < |abis[i].Args()| :: abis[i].Args()[m].typeTag
    {
      var k, j :| 0 <= k < |p| && 0 <= j < |p[k].Args()| && p[k].Args()[j].typeTag == t;
      if k < i {
        assert q[k] == p[k];
      }
    }
    forall t | t in ArgumentTypes(q) ensures t in ArgumentTypes(p) {
      var k, j :| 0 <= k < |q| && 0 <= j < |q[k].Args()| && q[k].Args()[j].typeTag == t;
      assert p[k] == q[k];
    }
    forall m | 0 <= m < |abis[i].Args()| ensures abis[i].Args()[m].typeTag in ArgumentTypes(p) {
      assert p[i] == abis[i];
    }
  }

  /** When the enum can be built, every helper type it requires is allowed,
      so every helper has a mangled name. */
  lemma HelperTypesAllowed(abis: seq<ScriptAbi>, camel: string -> string)
    requires EnumVariants(abis, camel).Ok?
    ensures forall t :: t in ArgumentTypes(abis) ==> Allowed(t) && MangleType(t).Ok?
  {
    EnumVariantsOk(abis, camel);
    forall t | t in ArgumentTypes(abis) ensures Allowed(t) && MangleType(t).Ok? {
      var k, j :| 0 <= k < |abis| && 0 <= j < |abis[k].Args()| && abis[k].Args()[j].typeTag == t;
      QuoteAcceptsAllowed(t);
      MangleAgreesWithQuote(t);
    }
  }

  /* ---------- Filters ---------- */

  /** `filter_transaction_scripts`. */
  function FilterTransactionScripts(abis: seq<ScriptAbi>): seq<ScriptAbi>
    decreases |abis|
  {
    if abis == [] then []
    else (if abis[0].TransactionScript? then [abis[0]] else []) + FilterTransactionScripts(abis[1..])
  }

  /** `transaction_script_abis`. */
  function TransactionScriptAbis(abis: seq<ScriptAbi>): seq<TransactionScriptAbi>
    decreases |abis|
  {
    if abis == [] then []
    else
      (if abis[0].TransactionScript? then [abis[0].ts] else []) + TransactionScriptAbis(abis[1..])
  }

  /** `script_function_abis`. */
  function ScriptFunctionAbis(abis: seq<ScriptAbi>): seq<ScriptFunctionAbi>
    decreases |abis|
  {
    if abis == [] then []
    else
      (if abis[0].ScriptFunction? then [abis[0].sf] else []) + ScriptFunctionAbis(abis[1..])
  }

  /** The filters keep exactly the ABIs of their variant. */
  lemma {:induction false} FiltersSelect(abis: seq<ScriptAbi>)
    ensures forall x :: x in FilterTransactionScripts(abis) <==> x in abis && x.TransactionScript?
    ensures forall x :: x in TransactionScriptAbis(abis) <==> TransactionScript(x) in abis
    ensures forall x :: x in ScriptFunctionAbis(abis) <==> ScriptFunction(x) in abis
    decreases |abis|
  {
    if abis != [] {
      FiltersSelect(abis[1..]);
      assert forall a :: a in abis <==> a == abis[0] || a in abis[1..];
    }
  }

  /** The filters keep the input order: filtering a concatenation is
      concatenating the filtered parts. */
  lemma {:induction false} FilterTransactionScriptsConcat(a: seq<ScriptAbi>, b: seq<ScriptAbi>)
    ensures FilterTransactionScripts(a + b) == FilterTransactionScripts(a) + FilterTransactionScripts(b)
    decreases |a|
  {
    if a == [] {
      assert a + b == b;
    } else {
      assert (a + b)[0] == a[0];
      assert (a + b)[1..] == a[1..] + b;
      FilterTransactionScriptsConcat(a[1..], b);
      var head := if a[0].TransactionScript? then [a[0]] else [];
      assert head + (FilterTransactionScripts(a[1..]) + FilterTransactionScripts(b))
          == (head + FilterTransactionScripts(a[1..])) + FilterTransactionScripts(b);
    }
  }

  lemma {:induction false} TransactionScriptAbisConcat(a: seq<ScriptAbi>, b: seq<ScriptAbi>)
    ensures TransactionScriptAbis(a + b) == TransactionScriptAbis(a) + TransactionScriptAbis(b)
    decreases |a|
  {
    if a == [] {
      assert a + b == b;
    } else {
      assert (a + b)[0] == a[0];
      assert (a + b)[1..] == a[1..] + b;
      TransactionScriptAbisConcat(a[1..], b);
      var head := if a[0].TransactionScript? then [a[0].ts] else [];
      assert head + (TransactionScriptAbis(a[1..]) + TransactionScriptAbis(b))
          == (head + TransactionScriptAbis(a[1..])) + TransactionScriptAbis(b);
    }
  }

  lemma {:induction false} ScriptFunctionAbisConcat(a: seq<ScriptAbi>, b: seq<ScriptAbi>)
    ensures ScriptFunctionAbis(a + b) == ScriptFunctionAbis(a) + ScriptFunctionAbis(b)
    decreases |a|
  {
    if a == [] {
      assert a + b == b;
    } else {
      assert (a + b)[0] == a[0];
      assert (a + b)[1..] == a[1..] + b;
      ScriptFunctionAbisConcat(a[1..], b);
      var head := if a[0].ScriptFunction? then [a[0].sf] else [];
      assert head + (ScriptFunctionAbis(a[1..]) + ScriptFunctionAbis(b))
          == (head + ScriptFunctionAbis(a[1..])) + ScriptFunctionAbis(b);
    }
  }

  /** Every ABI is in exactly one of the two typed lists, and the untyped
      filter is the transaction-script list wrapped back. */
  lemma {:induction false} FiltersPartition(abis: seq<ScriptAbi>)
    ensures |TransactionScriptAbis(abis)| + |ScriptFunctionAbis(abis)| == |abis|
    ensures FilterTransactionScripts(abis) == Wrap(TransactionScriptAbis(abis))
    decreases |abis|
  {
    if abis != [] {
      FiltersPartition(abis[1..]);
      WrapConcat(if abis[0].TransactionScript? then [abis[0].ts] else [], TransactionScriptAbis(abis[1..]));
    }
  }

  /** Each transaction script as a `ScriptABI`. */
  function Wrap(ts: seq<TransactionScriptAbi>): (r: seq<ScriptAbi>)
    ensures |r| == |ts|
    ensures forall k :: 0 <= k < |ts| ==> r[k] == TransactionScript(ts[k])
    decreases |ts|
  {
    if ts == [] then [] else [TransactionScript(ts[0])] + Wrap(ts[1..])
  }

  lemma WrapConcat(a: seq<TransactionScriptAbi>, b: seq<TransactionScriptAbi>)
    ensures Wrap(a + b) == Wrap(a) + Wrap(b)
  {
    assert |Wrap(a + b)| == |Wrap(a) + Wrap(b)|;
    forall k | 0 <= k < |a + b| ensures Wrap(a + b)[k] == (Wrap(a) + Wrap(b))[k] {
      if k < |a| {
        assert (a + b)[k] == a[k];
      } else {
        assert (a + b)[k] == b[k - |a|];
      }
    }
  }

  /* ---------- Doc strings and external definitions ---------- */

  /** `str::replace("\n ", "\n")`: left to right, matches do not overlap. */
  function DropIndent(s: string): (r: string)
    ensures |r| <= |s|
    decreases |s|
  {
    if |s| >= 2 && s[0] == '\n' && s[1] == ' ' then "\n" + DropIndent(s[2..])
    else if s == [] then []
    else [s[0]] + DropIndent(s[1..])
  }

  /** `s` without its spaces. */
  function NonSpaces(s: string): string
    decreases |s|
  {
    if s == [] then [] else (if s[0] == ' ' then [] else [s[0]]) + NonSpaces(s[1..])
  }

  /** Dropping indents removes spaces only: every other character stays, in order. */
  lemma {:induction false} DropIndentRemovesOnlySpaces(s: string)
    ensures NonSpaces(DropIndent(s)) == NonSpaces(s)
    decreases |s|
  {
    if |s| >= 2 && s[0] == '\n' && s[1] == ' ' {
      DropIndentRemovesOnlySpaces(s[2..]);
      assert NonSpaces(s[1..]) == NonSpaces(s[2..]);
      assert ("\n" + DropIndent(s[2..]))[1..] == DropIndent(s[2..]);
    } else if s != [] {
      DropIndentRemovesOnlySpaces(s[1..]);
      assert ([s[0]] + DropIndent(s[1..]))[1..] == DropIndent(s[1..]);
    }
  }

  /** A text without `"\n "` is left unchanged. */
  lemma {:induction false} DropIndentWithoutMatch(s: string)
    requires Strings.IndexOf(s, "\n ").None?
    ensures DropIndent(s) == s
    decreases |s|
  {
    if s != [] {
      assert !Strings.OccursAt(s, "\n ", 0);
      NoIndentInTail(s);
      DropIndentWithoutMatch(s[1..]);
    }
  }

  /** A text without `"\n "` has none after its first character either. */
  lemma NoIndentInTail(s: string)
    requires s != [] && Strings.IndexOf(s, "\n ").None?
    ensures Strings.IndexOf(s[1..], "\n ").None?
  {
    forall j | 0 <= j ensures !Strings.OccursAt(s[1..], "\n ", j) {
      assert !Strings.OccursAt(s, "\n ", j + 1);
      if j + 2 <= |s[1..]| {
        assert s[1..][j..j + 2] == s[j + 1..j + 3];
      }
    }
  }

  /** The first `"\n "` is replaced by `"\n"` and the search resumes after
      it: with `DropIndentWithoutMatch` this fixes `DropIndent` on every text. */
  lemma {:induction false} DropIndentFirstMatch(a: string, b: string)
    requires Strings.IndexOf(a, "\n ").None?
    ensures DropIndent(a + "\n " + b) == a + "\n" + DropIndent(b)
    decreases |a|
  {
    var s := a + "\n " + b;
    if a == [] {
      assert s[0] == '\n' && s[1] == ' ' && s[2..] == b;
    } else {
      assert !Strings.OccursAt(a, "\n ", 0);
      assert s[0] == a[0];
      assert !(s[0] == '\n' && s[1] == ' ') by {
        if |a| >= 2 {
          assert a[0..2] == [a[0], a[1]];
        } else {
          assert s[1] == '\n';
        }
      }
      assert s[1..] == a[1..] + "\n " + b;
      NoIndentInTail(a);
      DropIndentFirstMatch(a[1..], b);
      assert a == [a[0]] + a[1..];
    }
  }

  /** Unicode's `White_Space` characters, which `str::trim` removes. */
  predicate IsWhitespace(c: char) {
    || ('\t' <= c <= '\r')
    || c == ' '
    || c == '\U{85}'
    || c == '\U{A0}'
    || c == '\U{1680}'
    || ('\U{2000}' <= c <= '\U{200A}')
    || c == '\U{2028}'
    || c == '\U{2029}'
    || c == '\U{202F}'
    || c == '\U{205F}'
    || c == '\U{3000}'
  }

  /** The index of the first character at or after `i` that is not
      whitespace, `|s|` if there is none. */
  function TrimStartIndex(s: string, i: nat): (a: nat)
    requires i <= |s|
    ensures i <= a <= |s|
    ensures a < |s| ==> !IsWhitespace(s[a])
    ensures forall k :: i <= k < a ==> IsWhitespace(s[k])
    decreases |s| - i
  {
    if i < |s| && IsWhitespace(s[i]) then TrimStartIndex(s, i + 1) else i
  }

  /** The index just past the last character before `j`, and not before
      `lo`, that is not whitespace; `lo` if there is none. */
  function TrimEndIndex(s: string, lo: nat, j: nat): (b: nat)
    requires lo <= j <= |s|
    ensures lo <= b <= j
    ensures b > lo ==> !IsWhitespace(s[b - 1])
    ensures forall k :: b <= k < j ==> IsWhitespace(s[k])
    decreases j
  {
    if j > lo && IsWhitespace(s[j - 1]) then TrimEndIndex(s, lo, j - 1) else j
  }

  /** `str::trim`: the text between the leading and the trailing whitespace. */
  function Trim(s: string): (r: string)
  {
    var a := TrimStartIndex(s, 0);
    s[a..TrimEndIndex(s, a, |s|)]
  }

  /** The trimmed text is a slice of the input with only whitespace on
      either side, and it neither starts nor ends with whitespace. */
  lemma TrimShape(s: string)
    ensures var a := TrimStartIndex(s, 0);
            var b := TrimEndIndex(s, a, |s|);
            && Trim(s) == s[a..b]
            && (forall k :: 0 <= k < a ==> IsWhitespace(s[k]))
            && (forall k :: b <= k < |s| ==> IsWhitespace(s[k]))
            && (Trim(s) == [] || (!IsWhitespace(Trim(s)[0]) && !IsWhitespace(Trim(s)[|Trim(s)| - 1])))
  {
  }

  /** Trimming twice is trimming once. */
  lemma TrimIdempotent(s: string)
    ensures Trim(Trim(s)) == Trim(s)
  {
    var r := Trim(s);
    TrimShape(s);
    assert TrimStartIndex(r, 0) == 0;
    assert TrimEndIndex(r, 0, |r|) == |r|;
    assert r[0..|r|] == r;
  }

  /** `r` is `d[a..b]` and `d` holds only whitespace outside `a..b`. */
  predicate TrimmedSlice(d: string, a: int, b: int, r: string) {
    && 0 <= a <= b <= |d| && r == d[a..b]
    && (forall k :: 0 <= k < a ==> IsWhitespace(d[k]))
    && (forall k :: b <= k < |d| ==> IsWhitespace(d[k]))
  }

  /** `prepare_doc_string`. */
  function PrepareDocString(doc: string): (r: string)
    ensures |r| <= |doc|
    ensures r == [] || (!IsWhitespace(r[0]) && !IsWhitespace(r[|r| - 1]))
    ensures exists a, b :: TrimmedSlice(DropIndent(doc), a, b, r)
  {
    var d := DropIndent(doc);
    TrimShape(d);
    var a := TrimStartIndex(d, 0);
    var b := TrimEndIndex(d, a, |d|);
    assert TrimmedSlice(d, a, b, Trim(d));
    Trim(d)
  }

  /** A doc string that is already clean is kept as it is. */
  lemma PrepareDocStringClean(doc: string)
    requires Strings.IndexOf(doc, "\n ").None?
    requires doc == [] || (!IsWhitespace(doc[0]) && !IsWhitespace(doc[|doc| - 1]))
    ensures PrepareDocString(doc) == doc
  {
    DropIndentWithoutMatch(doc);
  }

  /** `get_external_definitions`: the types the generated code takes from
      the module `aptosTypes`. */
  function GetExternalDefinitions(aptosTypes: string): (defs: map<string, seq<string>>)
    ensures defs.Keys == {aptosTypes}
    ensures AccountAddressName in defs[aptosTypes] && TypeTagName in defs[aptosTypes]
  {
    map[aptosTypes := [AccountAddressName, TypeTagName, "Script", "TransactionArgument"]]
  }

  /** A quoted argument type refers to no type name but `AccountAddress`. */
  lemma QuotedTypeNames(t: TypeTag)
    requires QuoteTypeAsFormat(t).Ok?
    ensures TypeNames(QuoteTypeAsFormat(t).value) <= {AccountAddressName}
  {
  }

  /** Every type name a variant field refers to is an external definition. */
  lemma FieldTypesAreExternal(abi: ScriptAbi, aptosTypes: string)
    requires AbiFields(abi).Ok?
    ensures forall k :: 0 <= k < |AbiFields(abi).value| ==>
              TypeNames(AbiFields(abi).value[k].value) <= {AccountAddressName, TypeTagName}
    ensures {AccountAddressName, TypeTagName} <= set n | n in GetExternalDefinitions(aptosTypes)[aptosTypes]
  {
    AbiFieldsSpec(abi);
    var tys, args := abi.TyArgs(), abi.Args();
    var fields := AbiFields(abi).value;
    assert |fields| == |tys| + |args|;
    forall k | 0 <= k < |fields|
      ensures TypeNames(fields[k].value) <= {AccountAddressName, TypeTagName}
    {
      if k < |tys| {
        assert fields[k].value == TypeName(TypeTagName);
      } else {
        var j := k - |tys|;
        assert Allowed(args[j].typeTag);
        QuoteAcceptsAllowed(args[j].typeTag);
        assert fields[|tys| + j].value == QuoteTypeAsFormat(args[j].typeTag).value;
        QuotedTypeNames(args[j].typeTag);
      }
    }
  }
}
