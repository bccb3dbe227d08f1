/**
 * `decryptVault` and `openVault`: run `ansible-vault` with the password file
 * of the configuration found, and turn every failure into a commented error
 * document instead of an exception.
 */
module Vault {
  import opened Wrappers
  import opened Paths
  import opened Candidates
  import opened Search
  import opened Comments

  /** One call of `exec(command, args)`. */
  datatype Invocation = Invocation(command: string, args: seq<string>)

  /** What `exec` settles with: the tool's stdout, or a rejection whose message is its stderr. */
  datatype ExecResult = Stdout(text: string) | Failed(stderr: string)

  /** An error caught in `openVault`: a `VaultyError` or any other `Error`. */
  datatype VaultError = VaultyError(message: string, additionalInfo: string) | OtherError(message: string)

  /** `ERROR: ${error.message}${additionalInfo}`, the extra part only for a `VaultyError`. */
  function ErrorText(e: VaultError): (t: string)
    ensures "ERROR: " + e.message <= t
    ensures e.VaultyError? ==> t[|"ERROR: " + e.message|..] == "\n\n" + e.additionalInfo
    ensures e.OtherError? ==> |t| == |"ERROR: " + e.message|
  {
    "ERROR: " + e.message + (if e.VaultyError? then "\n\n" + e.additionalInfo else "")
  }

  /**
   * The lines of the `VaultyError` text for a failed decryption that come
   * before the tool's message: the configuration file and the password file
   * each stand on a line of their own, between blank lines.
   */
  // The longer lines are written as two literals joined by `+`: showing that
  // one long literal holds no newline costs the verifier far more than
  // showing it for two halves.
  const FoundConfigurationLine := "Vaulty found an Ansible configuration file"
  const PointsToLine := "which points to the password file"
  const DecryptionFailedLine := "but decryption failed. This is the " + "error message from `ansible-vault`:"

  function DecryptionFailedLines(configuration: AnsibleConfiguration): seq<string> {
    [ FoundConfigurationLine, "", configuration.configurationFile, ""
    , PointsToLine, "", configuration.passwordFile, ""
    , DecryptionFailedLine, "" ]
  }

  lemma DecryptionFailedOpeningLines()
    ensures '\n' !in FoundConfigurationLine && '\n' !in PointsToLine
  {
  }

  lemma DecryptionFailedClosingLine()
    ensures '\n' !in DecryptionFailedLine
  {
  }

  /** Without a newline in either path, the lines are those of the joined text. */
  lemma DecryptionFailedLinesSplit(configuration: AnsibleConfiguration)
    requires '\n' !in configuration.configurationFile && '\n' !in configuration.passwordFile
    ensures SplitLines(JoinLines(DecryptionFailedLines(configuration))) == DecryptionFailedLines(configuration)
  {
    var lines := DecryptionFailedLines(configuration);
    DecryptionFailedOpeningLines();
    DecryptionFailedClosingLine();
    forall i | 0 <= i < |lines| ensures '\n' !in lines[i] {
      if i in {0, 4, 8} {
      } else {
        assert lines[i] == "" || lines[i] == configuration.configurationFile || lines[i] == configuration.passwordFile;
      }
    }
    SplitJoin(lines);
  }

  /**
   * The decryption failure text up to the tool's message. When neither path
   * holds a newline, it splits back into exactly `DecryptionFailedLines`.
   */
  function DecryptionFailedPreamble(configuration: AnsibleConfiguration): (p: string)
    ensures '\n' !in configuration.configurationFile && '\n' !in configuration.passwordFile ==>
      SplitLines(p) == DecryptionFailedLines(configuration)
  {
    // Both branches build the same text: the test only picks out the case in
    // which the split lemma, which needs paths without newlines, can be called.
    if '\n' !in configuration.configurationFile && '\n' !in configuration.passwordFile then
      DecryptionFailedLinesSplit(configuration);
      JoinLines(DecryptionFailedLines(configuration))
    else JoinLines(DecryptionFailedLines(configuration))
  }

  /**
   * The additional information of the decryption failure: it ends with the
   * tool's message, and its lines are the preamble's lines followed by the
   * lines of that message.
   */
  function DecryptionFailedInfo(configuration: AnsibleConfiguration, toolMessage: string): (info: string)
    ensures |toolMessage| < |info| && info[|info| - |toolMessage|..] == toolMessage
    ensures '\n' !in configuration.configurationFile && '\n' !in configuration.passwordFile ==>
      SplitLines(info) == DecryptionFailedLines(configuration) + SplitLines(toolMessage)
  {
    SplitAround(DecryptionFailedPreamble(configuration), toolMessage);
    DecryptionFailedPreamble(configuration) + "\n" + toolMessage
  }

  /**
   * The lines of the `VaultyError` text when no configuration is found, given
   * the vault file's base name and the home configuration path.
   */
  // Split into two literals for the same reason as `DecryptionFailedLine`.
  const TriedToFindLine := "Vaulty tried to find `ansible.cfg` with " + "`vault_password_file=...` defined in"
  const ParentDirectoriesLine := "- its parent directories " + "in the VS Code workspace"
  const NotFoundLine := "but could not find a valid configuration."

  function NoConfigurationLines(baseName: string, homePath: string): seq<string> {
    [ TriedToFindLine
    , "- the same directory as \"" + baseName + "\""
    , ParentDirectoriesLine
    , "- in the home directory (" + homePath + ")"
    , ""
    , NotFoundLine ]
  }

  lemma NoConfigurationOpeningLine()
    ensures '\n' !in TriedToFindLine
  {
  }

  lemma NoConfigurationParentsLine()
    ensures '\n' !in ParentDirectoriesLine
  {
  }

  lemma NoConfigurationClosingLine()
    ensures '\n' !in NotFoundLine
  {
  }

  /** Without a newline in either name, the lines are those of the joined text. */
  lemma NoConfigurationLinesSplit(baseName: string, homePath: string)
    requires '\n' !in baseName && '\n' !in homePath
    ensures SplitLines(JoinLines(NoConfigurationLines(baseName, homePath))) == NoConfigurationLines(baseName, homePath)
  {
    var lines := NoConfigurationLines(baseName, homePath);
    NoConfigurationOpeningLine();
    NoConfigurationParentsLine();
    NoConfigurationClosingLine();
    forall i | 0 <= i < |lines| ensures '\n' !in lines[i] {
      if i in {0, 2, 5} {
      } else {
        assert i == 1 || i == 3 || i == 4;
      }
    }
    SplitJoin(lines);
  }

  /**
   * The additional information when no configuration is found. It names the
   * vault file's base name and the home configuration path, and when neither
   * holds a newline it splits back into exactly `NoConfigurationLines`.
   */
  function NoConfigurationInfo(vaultFile: string, homeDir: string): (info: string)
    ensures var b, h := BaseName(vaultFile), HomeConfigurationPath(homeDir);
      '\n' !in b && '\n' !in h ==> SplitLines(info) == NoConfigurationLines(b, h)
  {
    var b, h := BaseName(vaultFile), HomeConfigurationPath(homeDir);
    // As in `DecryptionFailedPreamble`, both branches build the same text.
    if '\n' !in b && '\n' !in h then
      NoConfigurationLinesSplit(b, h);
      JoinLines(NoConfigurationLines(b, h))
    else JoinLines(NoConfigurationLines(b, h))
  }

  /** `decryptVault`: one `ansible-vault decrypt` call, its failure rewrapped in a `VaultyError`. */
  method DecryptVault(vaultFile: string, configuration: AnsibleConfiguration, run: Invocation -> ExecResult)
    returns (r: Result<string, VaultError>, call: Invocation)
    ensures call.command == "ansible-vault"
    ensures call.args == ["decrypt", "--vault-password-file=" + configuration.passwordFile, "--output=-", vaultFile]
    ensures run(call).Stdout? ==> r == Success(run(call).text)
    ensures run(call).Failed? ==>
      r == Failure(VaultyError("Decryption failed", DecryptionFailedInfo(configuration, run(call).stderr)))
  {
    var args := ["decrypt", "--vault-password-file=" + configuration.passwordFile, "--output=-", vaultFile];
    call := Invocation("ansible-vault", args);
    var outcome := run(call);
    match outcome
    case Stdout(text) =>
      r := Success(text);
    case Failed(stderr) =>
      r := Failure(VaultyError("Decryption failed", DecryptionFailedInfo(configuration, stderr)));
  }

  /**
   * `openVault(progress, vaultFile)`: the decrypted text when a configuration
   * is found and the tool succeeds, otherwise the commented error document.
   * `call` is the `exec` call made, if any.
   */
  method OpenVault(vaultFile: string, files: seq<string>, homeDir: string, homeAccessible: bool,
                   read: string -> FileRead, run: Invocation -> ExecResult)
    returns (text: string, call: Option<Invocation>)
    ensures match Resolve(AllCandidates(vaultFile, files, HomeConfiguration(homeDir, homeAccessible)), read)
      case Found(c) =>
        && call == Some(Invocation("ansible-vault",
             ["decrypt", "--vault-password-file=" + c.passwordFile, "--output=-", vaultFile]))
        && (run(call.value).Stdout? ==> text == run(call.value).text)
        && (run(call.value).Failed? ==>
              text == CommentedText(ErrorText(VaultyError("Decryption failed", DecryptionFailedInfo(c, run(call.value).stderr)))))
      case NotFound =>
        && call == None
        && text == CommentedText(ErrorText(VaultyError("No Vault configuration found", NoConfigurationInfo(vaultFile, homeDir))))
      case ReadError(message) =>
        && call == None
        && text == CommentedText(ErrorText(OtherError(message)))
  {
    var configuration := FindAnsibleConfiguration(vaultFile, files, homeDir, homeAccessible, read);
    match configuration
    case ReadError(message) =>
      text := CommentedText(ErrorText(OtherError(message)));
      call := None;
    case NotFound =>
      text := CommentedText(ErrorText(VaultyError("No Vault configuration found", NoConfigurationInfo(vaultFile, homeDir))));
      call := None;
    case Found(c) =>
      var decrypted, invocation := DecryptVault(vaultFile, c, run);
      call := Some(invocation);
      match decrypted
      case Success(plain) =>
        text := plain;
      case Failure(error) =>
        text := CommentedText(ErrorText(error));
  }

  // ---------------------------------------------------------------------------
  // Properties of the error document

  /**
   * On a tool failure the document ends with the tool's message, commented
   * line by line, after the commented explanation.
   */
  lemma DecryptionFailureShowsToolMessage(configuration: AnsibleConfiguration, toolMessage: string)
    ensures CommentedText(ErrorText(VaultyError("Decryption failed", DecryptionFailedInfo(configuration, toolMessage))))
      == CommentedText(ErrorText(VaultyError("Decryption failed", DecryptionFailedPreamble(configuration))))
         + "\n" + CommentedText(toolMessage)
  {
    InfoTailIsCommentedLast("Decryption failed", DecryptionFailedPreamble(configuration), toolMessage);
  }

  /** Splitting the additional information of a `VaultyError` at a newline splits its document there. */
  lemma InfoTailIsCommentedLast(message: string, info: string, tail: string)
    ensures CommentedText(ErrorText(VaultyError(message, info + "\n" + tail)))
      == CommentedText(ErrorText(VaultyError(message, info))) + "\n" + CommentedText(tail)
  {
    var head := "ERROR: " + message + "\n\n";
    assert ErrorText(VaultyError(message, info + "\n" + tail)) == (head + info) + "\n" + tail;
    assert ErrorText(VaultyError(message, info)) == head + info;
    CommentedAround(head + info, tail);
  }

  /**
   * The error document has as many lines as the error text, each of them the
   * corresponding line with `# ` in front, and its first line starts with `# ERROR: `.
   */
  lemma ErrorDocumentIsCommented(e: VaultError)
    ensures var lines := SplitLines(ErrorText(e));
      && |SplitLines(CommentedText(ErrorText(e)))| == |lines|
      && (forall i :: 0 <= i < |lines| ==> SplitLines(CommentedText(ErrorText(e)))[i] == "# " + lines[i])
    ensures "# ERROR: " <= CommentedText(ErrorText(e))
  {
    CommentedLines(ErrorText(e));
    CommentedErrorMarker(e);
  }

  lemma CommentedErrorMarker(e: VaultError)
    ensures "# ERROR: " <= CommentedText(ErrorText(e))
  {
    var t := ErrorText(e);
    var rest := t[|"ERROR: "|..];
    assert t == "ERROR: " + rest;
    CommentedAfterMarker("ERROR: ", rest);
  }

  lemma CommentedAfterMarker(marker: string, rest: string)
    requires '\n' !in marker
    ensures "# " + marker <= CommentedText(marker + rest)
  {
    var lines := SplitLines(marker + rest);
    PrefixLineOfNoNewline(marker, rest);
    var c := PrefixAll(lines);
    assert c[0] == "# " + lines[0];
    assert c[0] <= JoinLines(c);
  }

  lemma {:induction false} PrefixLineOfNoNewline(marker: string, rest: string)
    requires '\n' !in marker
    ensures marker <= SplitLines(marker + rest)[0]
  {
    if marker != [] {
      assert (marker + rest)[1..] == marker[1..] + rest;
      assert '\n' !in marker[1..] by {
        forall k | 0 <= k < |marker[1..]| ensures marker[1..][k] != '\n' { assert marker[1..][k] == marker[k + 1]; }
      }
      PrefixLineOfNoNewline(marker[1..], rest);
      assert (marker + rest)[0] == marker[0];
    }
  }

  /**
   * When every configuration file in a parent directory is read and lacks
   * `vault_password_file`, and the home file is not accessible, the search
   * ends with "No Vault configuration found".
   */
  lemma NoUsableCandidateMeansNotFound(vaultFile: string, files: seq<string>, homeDir: string,
                                       read: string -> FileRead)
    requires forall f :: f in files && InParentDirectory(vaultFile, f) ==> Skipped(f, read)
    ensures Resolve(AllCandidates(vaultFile, files, HomeConfiguration(homeDir, false)), read) == NotFound
  {
    var all := AllCandidates(vaultFile, files, HomeConfiguration(homeDir, false));
    forall j | 0 <= j < |all| ensures Skipped(all[j], read) {
      assert all[j] in WorkspaceCandidates(vaultFile, files);
    }
    NotFoundIffAllSkipped(all, read);
  }
}
