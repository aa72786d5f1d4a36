/** The CLI end-to-end test helper (crates/aptos/e2e/test_helpers.py):
    the choice between a CLI image and a local CLI binary, the command line
    it runs, and the reading of the account created by `aptos init` from the
    CLI's configuration file. Subprocesses, files and the REST client are
    left out; the lines of the configuration file are an input. */
module E2eHelpers {
  import opened Wrappers
  import Strings

  /** `WORKING_DIR_IN_CONTAINER`. */
  const WorkingDirInContainer := "/tmp"

  /** The address of the local testnet's REST API the helper's client uses. */
  const LocalApiUrl := "http://127.0.0.1:8080/v1"

  /** Python truthiness of an optional string: present and non-empty. */
  predicate Truthy(s: Option<string>) {
    s.Some? && s.value != ""
  }

  /** `RunHelper`: its fields never change after `__init__`. */
  datatype RunHelper = RunHelper(
    hostWorkingDirectory: string,
    imageRepoWithProject: string,
    imageTag: Option<string>,
    cliPath: Option<string>,
    apiUrl: string)
  {
    /** Exactly one of an image tag and a CLI path is given. */
    predicate Valid() {
      Truthy(imageTag) != Truthy(cliPath)
    }
  }

  datatype InitError = BothImageTagAndCliPath | NeitherImageTagNorCliPath

  /** `RunHelper.__init__`: refuse both or neither of an image tag and a
      CLI path; otherwise keep the arguments. */
  function NewRunHelper(hostWorkingDirectory: string, imageRepoWithProject: string,
                        imageTag: Option<string>, cliPath: Option<string>): (r: Result<RunHelper, InitError>)
    ensures r == Err(BothImageTagAndCliPath) <==> Truthy(imageTag) && Truthy(cliPath)
    ensures r == Err(NeitherImageTagNorCliPath) <==> !Truthy(imageTag) && !Truthy(cliPath)
    ensures r.Ok? ==> r.value.Valid()
    ensures r.Ok? ==> r.value == RunHelper(hostWorkingDirectory, imageRepoWithProject, imageTag, cliPath, LocalApiUrl)
  {
    if Truthy(imageTag) && Truthy(cliPath) then Err(BothImageTagAndCliPath)
    else if !(Truthy(imageTag) || Truthy(cliPath)) then Err(NeitherImageTagNorCliPath)
    else Ok(RunHelper(hostWorkingDirectory, imageRepoWithProject, imageTag, cliPath, LocalApiUrl))
  }

  /** The image name built from the repository and the tag (`common.build_image_name`). */
  type ImageNamer = (string, string) -> string

  /** The `docker run` prefix that runs the CLI image as the current user,
      on the host network, with the host working directory mounted at the
      container's working directory. */
  function DockerPrefix(helper: RunHelper, uid: nat, gid: nat, buildImageName: ImageNamer): (prefix: seq<string>)
    requires Truthy(helper.imageTag)
    ensures |prefix| == 13
    ensures prefix[2..8] == ["--user", Strings.Decimal(uid) + ":" + Strings.Decimal(gid), "--rm", "--network", "host", "-i"]
  {
    ["docker", "run",
     "--user", Strings.Decimal(uid) + ":" + Strings.Decimal(gid),
     "--rm",
     "--network", "host",
     "-i",
     "-v", helper.hostWorkingDirectory + ":" + WorkingDirInContainer,
     "--workdir", WorkingDirInContainer,
     buildImageName(helper.imageRepoWithProject, helper.imageTag.value)]
  }

  /** The full command of `run_command`: with an image, the docker prefix
      and then the caller's command as it is; with a local CLI, the CLI
      path in place of the command's first word. */
  function FullCommand(helper: RunHelper, command: seq<string>, uid: nat, gid: nat,
                       buildImageName: ImageNamer): (full: seq<string>)
    requires helper.Valid()
    ensures Truthy(helper.imageTag) ==>
              && |full| == 13 + |command|
              && full[0] == "docker" && full[1] == "run"
              && full[2..8] == ["--user", Strings.Decimal(uid) + ":" + Strings.Decimal(gid), "--rm", "--network", "host", "-i"]
              && full[8] == "-v" && full[9] == helper.hostWorkingDirectory + ":" + WorkingDirInContainer
              && full[10] == "--workdir" && full[11] == WorkingDirInContainer
              && full[12] == buildImageName(helper.imageRepoWithProject, helper.imageTag.value)
              && full[13..] == command
    ensures !Truthy(helper.imageTag) ==>
              && |full| == (if command == [] then 1 else |command|)
              && full[0] == helper.cliPath.value
              && (command != [] ==> full[1..] == command[1..])
  {
    if Truthy(helper.imageTag) then
      var prefix := DockerPrefix(helper, uid, gid, buildImageName);
      assert (prefix + command)[13..] == command;
      assert (prefix + command)[2..8] == prefix[2..8];
      prefix + command
    else [helper.cliPath.value] + (if command == [] then [] else command[1..])
  }

  /** The keyword arguments passed on to `subprocess.run`: a local CLI runs
      in the host working directory; nothing else is changed. */
  function RunKwargs(helper: RunHelper, kwargs: map<string, string>): (r: map<string, string>)
    ensures r.Keys == if Truthy(helper.cliPath) then kwargs.Keys + {"cwd"} else kwargs.Keys
    ensures Truthy(helper.cliPath) ==> r["cwd"] == helper.hostWorkingDirectory
    ensures forall k :: k in kwargs && (k != "cwd" || !Truthy(helper.cliPath)) ==> r[k] == kwargs[k]
  {
    if Truthy(helper.cliPath) then kwargs["cwd" := helper.hostWorkingDirectory] else kwargs
  }

  /* ---------- Reading the account from the CLI configuration ---------- */

  const PrivateKeyKey := "private_key: "
  const PublicKeyKey := "public_key: "
  const AccountKey := "account: "

  /** `line.split(key)[1]` for a line that holds `key`: the text after the
      first occurrence of `key`, up to the next occurrence or the end. */
  function SecondPart(line: string, key: string): (part: string)
    requires key != "" && Strings.Contains(line, key)
    ensures var start := Strings.IndexOf(line, key).value + |key|;
            && start + |part| <= |line|
            && line[start..start + |part|] == part
            && (start + |part| == |line| || Strings.OccursAt(line, key, start + |part|))
            && forall j :: start <= j < start + |part| ==> !Strings.OccursAt(line, key, j)
  {
    var start := Strings.IndexOf(line, key).value + |key|;
    match Strings.IndexOfFrom(line, key, start)
    case None => line[start..]
    case Some(next) => line[start..next]
  }

  /** The value a line gives for `key`: its second part without quotes.
      `Strings.RemoveCharConcat` gives the order of the kept characters. */
  function FieldValue(line: string, key: string): (v: string)
    requires key != "" && Strings.Contains(line, key)
    ensures '"' !in v && |v| <= |line|
    ensures multiset(v) == multiset(SecondPart(line, key))['"' := 0]
  {
    Strings.RemoveChar(SecondPart(line, key), '"')
  }

  /** The index of the last line that holds `key`. */
  function LastLineWith(lines: seq<string>, key: string): (r: Option<nat>)
    ensures r.Some? ==> r.value < |lines| && Strings.Contains(lines[r.value], key)
    ensures r.Some? ==> forall j :: r.value < j < |lines| ==> !Strings.Contains(lines[j], key)
    ensures r.None? ==> forall j :: 0 <= j < |lines| ==> !Strings.Contains(lines[j], key)
  {
    if lines == [] then None
    else if Strings.Contains(lines[|lines| - 1], key) then Some(|lines| - 1)
    else LastLineWith(lines[..|lines| - 1], key)
  }

  /** The value for `key` of the last line that holds it: a later line
      overrides an earlier one. */
  function LastValue(lines: seq<string>, key: string): Option<string>
    requires key != ""
  {
    match LastLineWith(lines, key)
    case None => None
    case Some(k) => Some(FieldValue(lines[k], key))
  }

  /** One more line overrides the value exactly when it holds the key. */
  lemma LastValueStep(lines: seq<string>, key: string, i: nat)
    requires key != "" && i < |lines|
    ensures LastValue(lines[..i + 1], key)
            == if Strings.Contains(lines[i], key) then Some(FieldValue(lines[i], key)) else LastValue(lines[..i], key)
  {
    assert lines[..i + 1][..i] == lines[..i];
  }

  /** `AccountInfo`. */
  datatype AccountInfo = AccountInfo(privateKey: string, publicKey: string, accountAddress: string)

  datatype AccountInfoError = MissingAccountInfo

  /** `get_account_info`: scan every line of the configuration, keeping the
      last value of each of the three keys, and fail unless all three are
      found and non-empty. */
  method GetAccountInfo(lines: seq<string>) returns (r: Result<AccountInfo, AccountInfoError>)
    ensures r.Ok? <==> Truthy(LastValue(lines, PrivateKeyKey)) && Truthy(LastValue(lines, PublicKeyKey))
                       && Truthy(LastValue(lines, AccountKey))
    ensures r.Ok? ==> r.value == AccountInfo(LastValue(lines, PrivateKeyKey).value, LastValue(lines, PublicKeyKey).value,
                                             LastValue(lines, AccountKey).value)
    ensures r.Err? ==> r.error == MissingAccountInfo
  {
    var privateKey: Option<string> := None;
    var publicKey: Option<string> := None;
    var accountAddress: Option<string> := None;
    for i := 0 to |lines|
      invariant privateKey == LastValue(lines[..i], PrivateKeyKey)
      invariant publicKey == LastValue(lines[..i], PublicKeyKey)
      invariant accountAddress == LastValue(lines[..i], AccountKey)
    {
      var line := lines[i];
      LastValueStep(lines, PrivateKeyKey, i);
      LastValueStep(lines, PublicKeyKey, i);
      LastValueStep(lines, AccountKey, i);
      if Strings.Contains(line, PrivateKeyKey) {
        privateKey := Some(FieldValue(line, PrivateKeyKey));
      }
      if Strings.Contains(line, PublicKeyKey) {
        publicKey := Some(FieldValue(line, PublicKeyKey));
      }
      if Strings.Contains(line, AccountKey) {
        accountAddress := Some(FieldValue(line, AccountKey));
      }
    }
    assert lines[..|lines|] == lines;
    if !Truthy(privateKey) || !Truthy(publicKey) || !Truthy(accountAddress) {
      return Err(MissingAccountInfo);
    }
    r := Ok(AccountInfo(privateKey.value, publicKey.value, accountAddress.value));
  }
}
