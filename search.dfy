/**
 * `findAnsibleConfiguration`: walk the candidates in order and stop at the
 * first whose content yields a password file.
 */
module Search {
  import opened Wrappers
  import opened Candidates
  import opened PasswordFile

  /** What `readFile` yields for a path: the text, or the error it rejects with. */
  datatype FileRead = Content(text: string) | ReadFailed(message: string)

  /** `AnsibleConfiguration`. */
  datatype AnsibleConfiguration = AnsibleConfiguration(configurationFile: string, passwordFile: string)

  /**
   * The outcome of the search: a configuration, `null`, or the read error
   * that escapes the loop (a failed `readFile` is not caught there).
   */
  datatype SearchResult = Found(configuration: AnsibleConfiguration) | NotFound | ReadError(message: string)

  /** A candidate the loop passes over: it was read and holds no `vault_password_file`. */
  predicate Skipped(candidate: string, read: string -> FileRead) {
    read(candidate).Content? && ParseVaultPasswordFilePath(candidate, read(candidate).text).None?
  }

  /**
   * The result of the loop over `candidates`, defined candidate by candidate:
   * a configuration comes from a candidate whose content names a password
   * file, and a read error from a candidate that could not be read.
   */
  function Resolve(candidates: seq<string>, read: string -> FileRead): (r: SearchResult)
    ensures r.Found? ==> var c := r.configuration.configurationFile;
      c in candidates && read(c).Content?
      && ParseVaultPasswordFilePath(c, read(c).text) == Some(r.configuration.passwordFile)
    ensures r.ReadError? ==> exists c :: c in candidates && read(c) == ReadFailed(r.message)
  {
    if candidates == [] then NotFound
    else
      match read(candidates[0])
      case ReadFailed(message) => ReadError(message)
      case Content(text) =>
        match ParseVaultPasswordFilePath(candidates[0], text)
        case Some(passwordFile) => Found(AnsibleConfiguration(candidates[0], passwordFile))
        case None => Resolve(candidates[1..], read)
  }

  /** The `for await` loop of `findAnsibleConfiguration` over a given candidate list. */
  method FirstConfiguration(candidates: seq<string>, read: string -> FileRead) returns (r: SearchResult)
    ensures r == Resolve(candidates, read)
  {
    var i := 0;
    while i < |candidates|
      invariant 0 <= i <= |candidates|
      invariant forall k :: 0 <= k < i ==> Skipped(candidates[k], read)
      invariant Resolve(candidates[i..], read) == Resolve(candidates, read)
    {
      var candidate := candidates[i];
      var content := read(candidate);
      assert candidates[i..][0] == candidate;
      if content.ReadFailed? {
        assert Resolve(candidates[i..], read) == ReadError(content.message);
        return ReadError(content.message);
      }
      var passwordFile := ParseVaultPasswordFilePath(candidate, content.text);
      if passwordFile.Some? {
        assert Resolve(candidates[i..], read) == Found(AnsibleConfiguration(candidate, passwordFile.value));
        return Found(AnsibleConfiguration(candidate, passwordFile.value));
      }
      assert candidates[i..][1..] == candidates[i + 1..];
      assert Resolve(candidates[i..], read) == Resolve(candidates[i + 1..], read);
      i := i + 1;
    }
    assert candidates[i..] == [];
    return NotFound;
  }

  /**
   * `findAnsibleConfiguration(vaultFile)`, with the workspace search result,
   * the home-directory probe and `readFile` given as inputs.
   */
  method FindAnsibleConfiguration(vaultFile: string, files: seq<string>, homeDir: string,
                                  homeAccessible: bool, read: string -> FileRead)
    returns (r: SearchResult)
    ensures r == Resolve(AllCandidates(vaultFile, files, HomeConfiguration(homeDir, homeAccessible)), read)
  {
    var candidates := AllCandidates(vaultFile, files, HomeConfiguration(homeDir, homeAccessible));
    r := FirstConfiguration(candidates, read);
  }

  // ---------------------------------------------------------------------------
  // What the search returns

  /** A skipped first candidate leaves the result to the rest of the list. */
  lemma ResolvePastSkipped(candidates: seq<string>, read: string -> FileRead)
    requires candidates != [] && Skipped(candidates[0], read)
    ensures Resolve(candidates, read) == Resolve(candidates[1..], read)
  {
  }

  /** A first candidate that is not skipped decides the result. */
  lemma ResolveAtFirst(candidates: seq<string>, read: string -> FileRead)
    requires candidates != [] && !Skipped(candidates[0], read)
    ensures read(candidates[0]).ReadFailed? ==> Resolve(candidates, read) == ReadError(read(candidates[0]).message)
    ensures read(candidates[0]).Content? ==>
      var parsed := ParseVaultPasswordFilePath(candidates[0], read(candidates[0]).text);
      parsed.Some? && Resolve(candidates, read) == Found(AnsibleConfiguration(candidates[0], parsed.value))
  {
  }

  /** A found configuration is the earliest candidate with a password file, paired with it. */
  lemma {:induction false} FoundIsEarliest(candidates: seq<string>, read: string -> FileRead) returns (k: nat)
    requires Resolve(candidates, read).Found?
    ensures k < |candidates|
    ensures forall j :: 0 <= j < k ==> Skipped(candidates[j], read)
    ensures var c := Resolve(candidates, read).configuration;
      && c.configurationFile == candidates[k]
      && read(candidates[k]).Content?
      && ParseVaultPasswordFilePath(candidates[k], read(candidates[k]).text) == Some(c.passwordFile)
  {
    if Skipped(candidates[0], read) {
      ResolvePastSkipped(candidates, read);
      var rest := candidates[1..];
      var k' := FoundIsEarliest(rest, read);
      k := k' + 1;
      assert candidates[k] == rest[k'];
      SkippedBeforeExtends(candidates, read, k');
    } else {
      ResolveAtFirst(candidates, read);
      assert read(candidates[0]).Content?;
      k := 0;
    }
  }

  /** Candidates skipped before `k` in the tail, after a skipped head, are those skipped before `k + 1`. */
  lemma SkippedBeforeExtends(candidates: seq<string>, read: string -> FileRead, k: nat)
    requires k < |candidates| - 1 && Skipped(candidates[0], read)
    requires forall j :: 0 <= j < k ==> Skipped(candidates[1..][j], read)
    ensures forall j :: 0 <= j < k + 1 ==> Skipped(candidates[j], read)
  {
    forall j | 0 <= j < k + 1 ensures Skipped(candidates[j], read) {
      if j > 0 {
        assert candidates[j] == candidates[1..][j - 1];
      }
    }
  }

  /** Conversely, the earliest candidate with a password file is the one found. */
  lemma {:induction false} EarliestIsFound(candidates: seq<string>, read: string -> FileRead, k: nat)
    requires k < |candidates|
    requires forall j :: 0 <= j < k ==> Skipped(candidates[j], read)
    requires read(candidates[k]).Content?
    requires ParseVaultPasswordFilePath(candidates[k], read(candidates[k]).text).Some?
    ensures Resolve(candidates, read) ==
      Found(AnsibleConfiguration(candidates[k],
        ParseVaultPasswordFilePath(candidates[k], read(candidates[k]).text).value))
  {
    if k > 0 {
      assert Skipped(candidates[0], read);
      EarliestIsFound(candidates[1..], read, k - 1);
    }
  }

  /** `null` exactly when every candidate is read and none holds `vault_password_file`. */
  lemma {:induction false} NotFoundIffAllSkipped(candidates: seq<string>, read: string -> FileRead)
    ensures Resolve(candidates, read).NotFound? <==> forall j :: 0 <= j < |candidates| ==> Skipped(candidates[j], read)
  {
    if candidates != [] {
      NotFoundIffAllSkipped(candidates[1..], read);
      assert forall j :: 1 <= j < |candidates| ==> candidates[j] == candidates[1..][j - 1];
    }
  }

  /** A read error comes from the first candidate that cannot be read, all earlier ones being skipped. */
  lemma {:induction false} ReadErrorIsEarliest(candidates: seq<string>, read: string -> FileRead) returns (k: nat)
    requires Resolve(candidates, read).ReadError?
    ensures k < |candidates|
    ensures forall j :: 0 <= j < k ==> Skipped(candidates[j], read)
    ensures read(candidates[k]) == ReadFailed(Resolve(candidates, read).message)
  {
    if Skipped(candidates[0], read) {
      assert Resolve(candidates, read) == Resolve(candidates[1..], read);
      var k' := ReadErrorIsEarliest(candidates[1..], read);
      k := k' + 1;
      assert forall j :: 1 <= j < k ==> candidates[j] == candidates[1..][j - 1];
    } else {
      k := 0;
    }
  }

  /**
   * The most specific configuration wins: every workspace candidate with a
   * longer path than the one found was read and holds no password file.
   */
  lemma LongerCandidatesAreSkipped(vaultFile: string, files: seq<string>, home: Option<string>,
                                   read: string -> FileRead, f: string)
    requires Resolve(AllCandidates(vaultFile, files, home), read).Found?
    requires f in files && InParentDirectory(vaultFile, f)
    requires |f| > |Resolve(AllCandidates(vaultFile, files, home), read).configuration.configurationFile|
    ensures Skipped(f, read)
  {
    var all := AllCandidates(vaultFile, files, home);
    var ws := WorkspaceCandidates(vaultFile, files);
    var k := FoundIsEarliest(all, read);
    assert f in ws;
    var j :| 0 <= j < |ws| && ws[j] == f;
    LongerComesFirst(ws, all, j, k);
  }

  /** In a longest-first prefix of `all`, a strictly longer element precedes position `k`. */
  lemma LongerComesFirst(ws: seq<string>, all: seq<string>, j: nat, k: nat)
    requires LongestFirst(ws) && ws <= all
    requires j < |ws| && k < |all| && |ws[j]| > |all[k]|
    ensures j < k && all[j] == ws[j]
  {
  }

  /** A configuration found outside a prefix `ws` of the candidates lies past it, and all of `ws` was skipped. */
  lemma FoundBeyondPrefix(ws: seq<string>, all: seq<string>, read: string -> FileRead) returns (k: nat)
    requires ws <= all && Resolve(all, read).Found?
    requires Resolve(all, read).configuration.configurationFile !in ws
    ensures |ws| <= k < |all| && all[k] == Resolve(all, read).configuration.configurationFile
    ensures forall f :: f in ws ==> Skipped(f, read)
  {
    k := FoundIsEarliest(all, read);
    forall f | f in ws ensures Skipped(f, read) {
      var j :| 0 <= j < |ws| && ws[j] == f;
      assert all[j] == f;
    }
  }

  /**
   * The home-directory file has the lowest priority: it is chosen only when
   * every workspace candidate was read and held no password file.
   */
  lemma HomeIsLastResort(vaultFile: string, files: seq<string>, homeDir: string, homeAccessible: bool,
                         read: string -> FileRead)
    requires var r := Resolve(AllCandidates(vaultFile, files, HomeConfiguration(homeDir, homeAccessible)), read);
      r.Found? && r.configuration.configurationFile !in WorkspaceCandidates(vaultFile, files)
    ensures homeAccessible
    ensures Resolve(AllCandidates(vaultFile, files, HomeConfiguration(homeDir, homeAccessible)), read)
      .configuration.configurationFile == HomeConfigurationPath(homeDir)
    ensures forall f :: f in WorkspaceCandidates(vaultFile, files) ==> Skipped(f, read)
  {
    var all := AllCandidates(vaultFile, files, HomeConfiguration(homeDir, homeAccessible));
    var ws := WorkspaceCandidates(vaultFile, files);
    var k := FoundBeyondPrefix(ws, all, read);
  }
}
