/** Argument validation of the transaction emitter
    (crates/transaction-emitter-lib/src/args.rs): where the coin-source key
    comes from, how a target URL gets its port, and the default transaction
    type. URL parsing and key loading are foreign code and are parameters. */
module EmitterArgs {
  import opened Wrappers
  import opened Ints
  import Strings

  /** `DEFAULT_API_PORT`. */
  const DefaultApiPort: U16 := 8080

  /* ---------- The coin source ---------- */

  /** An Ed25519 private key, as its bytes. */
  datatype PrivateKey = PrivateKey(bytes: seq<bv8>)

  /** `CoinSourceArgs`: four optional, mutually exclusive key sources. */
  datatype CoinSourceArgs = CoinSourceArgs(
    mintKey: Option<PrivateKey>,
    mintFile: Option<string>,
    coinSourceKey: Option<PrivateKey>,
    coinSourceFile: Option<string>)

  /** Loading a BCS-encoded key from a file path; it can fail. */
  type KeyLoader = string -> Result<PrivateKey, string>

  datatype KeyError = NotExactlyOneSource | LoadFailed(reason: string)

  /** How many of the four sources are given. */
  function SourcesGiven(args: CoinSourceArgs): (n: nat)
    ensures n <= 4
    ensures n == 0 <==> args == CoinSourceArgs(None, None, None, None)
  {
    (if args.mintKey.Some? then 1 else 0) + (if args.mintFile.Some? then 1 else 0)
    + (if args.coinSourceKey.Some? then 1 else 0) + (if args.coinSourceFile.Some? then 1 else 0)
  }

  /** The key a loaded file yields, paired with the mint flag. */
  function Loaded(loadKey: KeyLoader, path: string, isMint: bool): Result<(PrivateKey, bool), KeyError> {
    match loadKey(path)
    case Ok(key) => Ok((key, isMint))
    case Err(e) => Err(LoadFailed(e))
  }

  /** `CoinSourceArgs::get_private_key`: the key of the one source given,
      with `true` when it is a mint key; loading a key file can fail. */
  function GetPrivateKey(args: CoinSourceArgs, loadKey: KeyLoader): (r: Result<(PrivateKey, bool), KeyError>)
    ensures r == Err(NotExactlyOneSource) <==> SourcesGiven(args) != 1
    ensures r.Ok? ==> (r.value.1 <==> args.mintKey.Some? || args.mintFile.Some?)
    ensures r.Err? && r.error.LoadFailed? ==> args.mintFile.Some? || args.coinSourceFile.Some?
  {
    match (args.mintKey, args.mintFile, args.coinSourceKey, args.coinSourceFile)
    case (Some(key), None, None, None) => Ok((key, true))
    case (None, Some(path), None, None) => Loaded(loadKey, path, true)
    case (None, None, Some(key), None) => Ok((key, false))
    case (None, None, None, Some(path)) => Loaded(loadKey, path, false)
    case _ => Err(NotExactlyOneSource)
  }

  /** One key source, as the command line gives it. */
  datatype KeySource = MintKey(key: PrivateKey) | MintFile(path: string)
                     | CoinSourceKey(key: PrivateKey) | CoinSourceFile(path: string)
  {
    predicate IsMint() {
      MintKey? || MintFile?
    }
  }

  /** The arguments holding `src` and no other source. */
  function OnlySource(src: KeySource): (args: CoinSourceArgs)
    ensures SourcesGiven(args) == 1
  {
    match src
    case MintKey(key) => CoinSourceArgs(Some(key), None, None, None)
    case MintFile(path) => CoinSourceArgs(None, Some(path), None, None)
    case CoinSourceKey(key) => CoinSourceArgs(None, None, Some(key), None)
    case CoinSourceFile(path) => CoinSourceArgs(None, None, None, Some(path))
  }

  /** Exactly one source is given precisely when the arguments are those of
      a single source. */
  lemma ExactlyOneSource(args: CoinSourceArgs)
    ensures SourcesGiven(args) == 1 <==> exists src :: OnlySource(src) == args
  {
    if SourcesGiven(args) == 1 {
      var src :=
        if args.mintKey.Some? then MintKey(args.mintKey.value)
        else if args.mintFile.Some? then MintFile(args.mintFile.value)
        else if args.coinSourceKey.Some? then CoinSourceKey(args.coinSourceKey.value)
        else CoinSourceFile(args.coinSourceFile.value);
      assert OnlySource(src) == args;
    }
  }

  /** A single source yields its key: a given key as it is, a file by
      loading it; the flag says whether the source is a mint source. */
  lemma GetPrivateKeyOfSource(src: KeySource, loadKey: KeyLoader)
    ensures src.MintKey? || src.CoinSourceKey? ==> GetPrivateKey(OnlySource(src), loadKey) == Ok((src.key, src.IsMint()))
    ensures src.MintFile? || src.CoinSourceFile? ==>
              GetPrivateKey(OnlySource(src), loadKey)
              == match loadKey(src.path)
                 case Ok(key) => Ok((key, src.IsMint()))
                 case Err(e) => Err(LoadFailed(e))
  {
  }

  /* ---------- Target URLs ---------- */

  /** The parts of a parsed URL that `parse_target` looks at. */
  datatype Url = Url(scheme: string, host: Option<string>, port: Option<U16>, path: string)

  /** The default port of the schemes the URL standard calls special. */
  function KnownDefaultPort(scheme: string): (p: Option<U16>)
    ensures p.Some? <==> scheme in {"http", "https", "ws", "wss", "ftp"}
  {
    if scheme == "http" || scheme == "ws" then Some(80)
    else if scheme == "https" || scheme == "wss" then Some(443)
    else if scheme == "ftp" then Some(21)
    else None
  }

  /** `Url::port_or_known_default`. */
  function PortOrKnownDefault(url: Url): (p: Option<U16>)
    ensures url.port.Some? ==> p == url.port
    ensures url.port.None? ==> p == KnownDefaultPort(url.scheme)
  {
    if url.port.Some? then url.port else KnownDefaultPort(url.scheme)
  }

  /** `Url::set_port(Some(port))`: refused for a URL without a host or with
      an empty host, and for a `file` URL; a port equal to the scheme's
      default is stored as no port. */
  function SetPort(url: Url, port: U16): (r: Option<Url>)
    ensures r.None? <==> url.host.None? || url.host == Some("") || url.scheme == "file"
    ensures r.Some? ==> r.value.scheme == url.scheme && r.value.host == url.host && r.value.path == url.path
    ensures r.Some? ==> PortOrKnownDefault(r.value) == Some(port)
  {
    if url.host.None? || url.host == Some("") || url.scheme == "file" then None
    else if KnownDefaultPort(url.scheme) == Some(port) then Some(url.(port := None))
    else Some(url.(port := Some(port)))
  }

  datatype TargetError = UnparsableTarget | EmptyScheme | CannotSetPort

  /** The port step of `parse_target`: a URL without a usable port gets the
      default API port. */
  function WithDefaultPort(url: Url): (r: Result<Url, TargetError>)
    ensures PortOrKnownDefault(url).Some? ==> r == Ok(url)
    ensures PortOrKnownDefault(url).None? ==>
              match SetPort(url, DefaultApiPort)
              case Some(u) => r == Ok(u) && u.port == Some(DefaultApiPort)
              case None => r == Err(CannotSetPort)
    ensures r.Ok? ==> PortOrKnownDefault(r.value).Some?
  {
    if PortOrKnownDefault(url).Some? then Ok(url)
    else match SetPort(url, DefaultApiPort)
      case Some(u) => Ok(u)
      case None => Err(CannotSetPort)
  }

  /** `parse_target`: parse, insist on a scheme, default the port. */
  function ParseTarget(target: string, parseUrl: string -> Option<Url>): (r: Result<Url, TargetError>)
    ensures parseUrl(target).None? ==> r == Err(UnparsableTarget)
    ensures parseUrl(target).Some? && parseUrl(target).value.scheme == "" ==> r == Err(EmptyScheme)
    ensures r.Ok? ==> parseUrl(target).Some? && r.value.scheme != ""
    ensures r.Ok? ==> PortOrKnownDefault(r.value).Some?
    ensures r.Ok? ==> r.value == parseUrl(target).value || r.value.port == Some(DefaultApiPort)
  {
    match parseUrl(target)
    case None => Err(UnparsableTarget)
    case Some(url) => if url.scheme == "" then Err(EmptyScheme) else WithDefaultPort(url)
  }

  /** Defaulting the port is idempotent: a target that went through it
      once comes out of it unchanged. */
  lemma WithDefaultPortIdempotent(url: Url)
    requires WithDefaultPort(url).Ok?
    ensures WithDefaultPort(WithDefaultPort(url).value) == WithDefaultPort(url)
  {
  }

  /* ---------- Transaction types ---------- */

  /** `TransactionTypeArg`. */
  datatype TransactionTypeArg =
    | CoinTransfer
    | AccountGeneration
    | AccountGenerationLargePool
    | NftMintAndTransfer
    | PublishPackage
    | CustomFunctionLargeModuleWorkingSet
    | CreateNewResource
    | NoOp

  /** `TransactionTypeArg::default`. */
  const DefaultTransactionType: TransactionTypeArg := CoinTransfer

  /** The command-line spelling `ArgEnum` derives: the variant name in kebab case. */
  function CliName(t: TransactionTypeArg): string {
    match t
    case CoinTransfer => "coin-transfer"
    case AccountGeneration => "account-generation"
    case AccountGenerationLargePool => "account-generation-large-pool"
    case NftMintAndTransfer => "nft-mint-and-transfer"
    case PublishPackage => "publish-package"
    case CustomFunctionLargeModuleWorkingSet => "custom-function-large-module-working-set"
    case CreateNewResource => "create-new-resource"
    case NoOp => "no-op"
  }

  /** Reading a transaction type from its command-line spelling. The
      argument is declared with `ignore_case = true`, so the spelling is
      compared after ASCII lower-casing. */
  function FromCliName(s: string): (r: Option<TransactionTypeArg>)
    ensures r.Some? ==> CliName(r.value) == Strings.LowerAscii(s)
    ensures r.None? ==> forall t :: CliName(t) != Strings.LowerAscii(s)
  {
    var name := Strings.LowerAscii(s);
    if name == "coin-transfer" then Some(CoinTransfer)
    else if name == "account-generation" then Some(AccountGeneration)
    else if name == "account-generation-large-pool" then Some(AccountGenerationLargePool)
    else if name == "nft-mint-and-transfer" then Some(NftMintAndTransfer)
    else if name == "publish-package" then Some(PublishPackage)
    else if name == "custom-function-large-module-working-set" then Some(CustomFunctionLargeModuleWorkingSet)
    else if name == "create-new-resource" then Some(CreateNewResource)
    else if name == "no-op" then Some(NoOp)
    else None
  }

  /** The spellings are in lower case. */
  lemma CliNameIsLowerCase(t: TransactionTypeArg)
    ensures Strings.LowerAscii(CliName(t)) == CliName(t)
  {
    match t
    case CoinTransfer => Strings.LowerAsciiOfLower("coin-transfer");
    case AccountGeneration => Strings.LowerAsciiOfLower("account-generation");
    case AccountGenerationLargePool => Strings.LowerAsciiOfLower("account-generation-large-pool");
    case NftMintAndTransfer => Strings.LowerAsciiOfLower("nft-mint-and-transfer");
    case PublishPackage => Strings.LowerAsciiOfLower("publish-package");
    case CustomFunctionLargeModuleWorkingSet => Strings.LowerAsciiOfLower("custom-function-large-module-working-set");
    case CreateNewResource => Strings.LowerAsciiOfLower("create-new-resource");
    case NoOp => Strings.LowerAsciiOfLower("no-op");
  }

  /** Any spelling whose lower case is a variant's name reads as that
      variant, whatever the case of its letters. */
  lemma FromCliNameIgnoresCase(s: string, t: TransactionTypeArg)
    requires Strings.LowerAscii(s) == CliName(t)
    ensures FromCliName(s) == Some(t)
  {
    var r := FromCliName(s);
    assert r.Some?;
    assert CliName(r.value) == CliName(t);
  }

  /** Every transaction type is read back from its spelling, so the
      spellings are distinct. */
  lemma CliNameRoundTrip(t: TransactionTypeArg)
    ensures FromCliName(CliName(t)) == Some(t)
  {
    CliNameIsLowerCase(t);
    FromCliNameIgnoresCase(CliName(t), t);
  }

  /** The `Default` impl and the command line's default value name the same
      transaction type. */
  lemma DefaultsAgree()
    ensures FromCliName("coin-transfer") == Some(DefaultTransactionType)
  {
  }
}
