# Vaulty core in Dafny

A model of the decision logic of Vaulty, an editor extension that shows the
plaintext of an encrypted Ansible Vault file (`src/vault.ts`):

- recognising a vault file by its `$ANSIBLE_VAULT` header;
- collecting the `ansible.cfg` files of the workspace whose directory is a
  textual prefix of the vault file's directory, longest path first, then
  `~/.ansible.cfg` if it is accessible;
- reading each candidate in turn and taking the first whose content matches
  `^\s*vault_password_file\s*=\s*(.*?)\s*$` (multiline), the captured value
  joined onto the configuration file's directory;
- running `ansible-vault decrypt --vault-password-file=<pw> --output=- <file>`
  and returning its stdout unchanged, or else an `ERROR: ...` text with `# `
  in front of every line.

Modules, one per concern of `src/vault.ts`:

| file | module | models |
|---|---|---|
| wrappers.dfy | `Wrappers` | `T \| null` as `Option`, success or rejection as `Result` |
| paths.dfy | `Paths` | `parent(uri)`, `basename`, `Uri.joinPath` on slash-separated strings |
| vault_file.dfy | `VaultFile` | `isEncryptedVaultFile` |
| candidates.dfy | `Candidates` | the parent-directory filter, `longestFirst` sort, home file, candidate list |
| password_file.dfy | `PasswordFile` | the `vault_password_file` regex and `parseVaultPasswordFilePath` |
| search.dfy | `Search` | the `findAnsibleConfiguration` loop |
| commented_text.dfy | `Comments` | `commentedText` (split, map, join) |
| vault.dfy | `Vault` | `decryptVault`, `openVault` and their error texts |

The I/O calls are inputs: the `findFiles('**/ansible.cfg')` result is a
sequence of paths, `os.homedir()` a string, `isFileAccessible` a boolean,
`readFile` a function from path to content or error message, and `exec` a
function from the invocation to stdout or stderr. `openVault` also returns the
invocation it handed to `exec`, so its contract can state the exact
argument list.

Behaviour worth knowing:

- The ancestor test is a text prefix test, so `/proj/abc/ansible.cfg` is a
  candidate for `/proj/abcdef/x` (`Candidates.SiblingWithLongerNameIsKept`).
- JavaScript's `\s` includes line terminators, so the white space after `=`
  may run onto the next line: `vault_password_file =` followed by a line
  `x` yields `x` (`PasswordFile.EmptyValueTakesNextLine`).
- A configuration file that cannot be read ends the search: the rejection of
  `readFile` escapes the loop and `openVault` renders it as `ERROR: <message>`
  with no additional information (`Search.SearchResult.ReadError`).
- There is no environment-variable override, and the captured value, even an
  absolute one, is always joined onto the configuration file's directory.
- The two error texts are multi-line template literals; the model writes each
  as its list of lines joined with `\n`, and proves that splitting the text
  gives those lines back whenever the paths inserted into it hold no newline.

## Model

| member | source | states |
|---|---|---|
| `Paths.ParentDir` | src/vault.ts:12 | the parent is the root or the path up to its last `/`, no `/` after it |
| `Paths.ParentOfChild` | src/vault.ts:12 | the parent of `dir/name` is `dir` |
| `Paths.BaseName` | src/vault.ts:127 | `basename` ignores trailing slashes and returns a `/`-free suffix of what remains, starting after a `/` or at the start; it is empty exactly when the path is all slashes |
| `Paths.JoinPath` | src/vault.ts:46 | the joined path starts with the directory, ends with the value, and adds at most one `/` between them |
| `VaultFile.IsEncryptedVaultFile` | src/vault.ts:6 | true exactly when the content starts with `$ANSIBLE_VAULT` |
| `VaultFile.MagicOnLaterLineIsRejected` | src/vault.ts:6 | `^` anchors at the start of the content only; the header on a later line is not recognised |
| `Candidates.InParentDirectory` | src/vault.ts:17 | a file in the vault file's own directory passes the filter; a file that passes has a directory that is a text prefix of the vault file's directory |
| `Candidates.InParentDirectories` | src/vault.ts:16-17 | keeps exactly the files whose directory is a text prefix of the vault file's directory, with their multiplicities, as a subsequence of the discovered list |
| `Candidates.SortLongestFirst` | src/vault.ts:8 | the result is a permutation of the input in non-increasing path length |
| `Candidates.SortIsStable` | src/vault.ts:22 | paths of equal length keep their discovery order |
| `Candidates.WorkspaceCandidates` | src/vault.ts:14-23 | the workspace candidates are the filtered files, longest first, and a file is among them iff it was discovered and passes the prefix test |
| `Candidates.HomeConfigurationPath` | src/vault.ts:25-28 | the home configuration path is the home directory, at most one separator, then `.ansible.cfg`: it starts with the home directory, ends with `/.ansible.cfg` and is at most 13 characters longer |
| `Candidates.HomeConfiguration` | src/vault.ts:30-39 | the home file is offered exactly when it is accessible |
| `Candidates.AllCandidates` | src/vault.ts:69 | the candidates are the workspace candidates followed by the home file when it is present; the home file is last |
| `Candidates.AncestorIsKept` | src/vault.ts:17 | a configuration file in any true ancestor directory of the vault file is kept |
| `Candidates.SiblingWithLongerNameIsKept` | src/vault.ts:17 | a directory that is not an ancestor but whose name is a text prefix is kept too |
| `PasswordFile.KeyAssignmentIsHead` | src/vault.ts:43 | the head `\s*vault_password_file\s*=` read from a position by `KeyAssignmentAt`: a result is such a head (white space, the key, white space, `=`), and any such head is the result, so a head has one reading and is found whenever it exists |
| `PasswordFile.MatchAtHead` | src/vault.ts:43 | the `m`-flag pattern matches at a position iff `^` holds there and a head starts there; the value is the group captured after that head |
| `PasswordFile.MatchIsEarliest` | src/vault.ts:43-45 | a value found is the one captured at the earliest position that matches |
| `PasswordFile.ParseVaultPasswordFilePath` | src/vault.ts:41-55 | `null` iff the pattern does not match; otherwise the path is the configuration file's directory, at most one separator, then the captured value: it starts with that directory, ends with the value (after a `/` when the value is non-empty) and is at most one character longer than the two together |
| `PasswordFile.NoMatchIffNoKeyAssignment` | src/vault.ts:43-53 | no match iff no line start is followed by `\s*vault_password_file\s*=` |
| `PasswordFile.FirstMatchWins` | src/vault.ts:43-45 | the earliest matching line start supplies the captured value |
| `PasswordFile.NoKeyNoMatch` | src/vault.ts:51-53 | content that never mentions `vault_password_file` yields no password file |
| `PasswordFile.CapturedValueIsTrimmed` | src/vault.ts:43 | the captured value starts at the first non-white-space character after the `=`, lies on one line, has no white space at either end, and only white space follows it up to the end of its line |
| `PasswordFile.AssignmentLineIsFound` | src/vault.ts:43-45 | content holding, at a line start `p`, a line `vault_password_file = v` with a trimmed one-line `v`, and no occurrence of the key before `p`, yields `v`: an earlier match of the pattern would read the same `=` and the same value |
| `PasswordFile.AssignmentLineRoundTrip` | src/vault.ts:43-45 | a line `vault_password_file = v` with a trimmed one-line `v` is read back as `v`, whatever follows it and whatever lines precede it, provided the key does not occur earlier in the content |
| `PasswordFile.EmptyValueTakesNextLine` | src/vault.ts:43 | with an empty value the capture continues onto the next line |
| `Search.Resolve` | src/vault.ts:70-79 | a found configuration pairs a candidate with the password file parsed from its content; a read error carries the message of a candidate that could not be read |
| `Search.FirstConfiguration` | src/vault.ts:70-79 | the `for await` loop stops at the first candidate that cannot be read or names a password file, and returns what `Resolve` defines for the list |
| `Search.FindAnsibleConfiguration` | src/vault.ts:66-80 | the search walks the workspace candidates followed by the home file when it is accessible, and returns what `Resolve` defines for that list |
| `Search.FoundIsEarliest` | src/vault.ts:70-77 | a found configuration is the earliest candidate with a password file, paired with its parse; every earlier one was read and had none |
| `Search.EarliestIsFound` | src/vault.ts:70-77 | conversely the earliest candidate with a password file is the one returned |
| `Search.NotFoundIffAllSkipped` | src/vault.ts:70-79 | `null` iff every candidate was read and has no password file |
| `Search.ReadErrorIsEarliest` | src/vault.ts:71 | a read error comes from the first unreadable candidate; all earlier ones were skipped |
| `Search.LongerCandidatesAreSkipped` | src/vault.ts:22 | the most specific configuration wins: every longer workspace candidate was read and had no password file |
| `Search.HomeIsLastResort` | src/vault.ts:69-79 | the home file is chosen only if it is accessible and every workspace candidate was skipped |
| `Vault.ErrorText` | src/vault.ts:139-140 | the text is `ERROR: ` and the message, then a blank line and the additional information for a `VaultyError` only |
| `Vault.DecryptionFailedPreamble` | src/vault.ts:97-105 | the text before the tool's message splits into the fixed lines with the configuration file and the password file each on a line of its own |
| `Vault.DecryptionFailedInfo` | src/vault.ts:97-107 | the additional information ends with the tool's message, and its lines are the preamble's lines followed by the message's lines |
| `Vault.NoConfigurationInfo` | src/vault.ts:126-131 | the text splits into its six lines, naming the vault file's base name and the home configuration path |
| `Vault.DecryptVault` | src/vault.ts:91-110 | `ansible-vault` is called with exactly `decrypt`, `--vault-password-file=<pw>`, `--output=-`, the vault file; stdout is returned unchanged and a failure becomes `VaultyError("Decryption failed", …)` carrying the tool's message |
| `Vault.OpenVault` | src/vault.ts:119-142 | the result is stdout unchanged when a configuration is found and the tool succeeds; otherwise the commented error text of the decryption failure, of "No Vault configuration found", or of the read error; no tool call without a configuration |
| `Vault.DecryptionFailureShowsToolMessage` | src/vault.ts:97-107 | the failure document ends with the tool's message, commented line by line |
| `Vault.ErrorDocumentIsCommented` | src/vault.ts:112-117 | the error document has the lines of the error text, each with `# ` in front, the first starting `# ERROR: ` |
| `Vault.NoUsableCandidateMeansNotFound` | src/vault.ts:123-133 | with no usable configuration in parent directories and no home file, the outcome is "No Vault configuration found" |
| `Comments.CommentedText` | src/vault.ts:112-117 | the commented text starts with `# ` and is longer than the input by two characters per line |
| `Comments.SplitLines` | src/vault.ts:114 | a split has at least one piece and no piece holds a `\n` |
| `Comments.JoinSplit` | src/vault.ts:114-116 | joining a split gives back the text |
| `Comments.SplitJoin` | src/vault.ts:114-116 | splitting a join of newline-free lines gives back the lines |
| `Comments.CommentedLines` | src/vault.ts:112-117 | the commented text has as many lines as the input, each the input line after `# ` |
| `Comments.CommentedAround` | src/vault.ts:112-117 | commenting distributes over a newline: `a\nb` becomes commented `a`, newline, commented `b` |

## Left out

- Logging (`log.appendLine`), `progress.report`, `window.showErrorMessage` and `console.error`: side effects with no bearing on the result.
- The `findFiles('**/ansible.cfg')` glob search: its result is an input sequence, in the order it returns.
- `os.homedir()`, `isFileAccessible`, `readFile` and `exec` (src/util.ts): their results are inputs; spawning, exit codes and the file system are not modelled.
- The asynchronous scheduling of the calls: the model is sequential, as each request in the source is.
- `Paths.JoinPath`: does not normalise `.`, `..` or repeated `/` as `Uri.joinPath` does, so a value such as `../password` is kept as written after the directory.
- `Paths.ParentDir`: paths are plain `/`-separated strings; URI and `fsPath` conversion (Windows separators, drive letters) is not modelled.
- `Paths.BaseName`: follows the POSIX `path.basename`; the Windows variant, which also splits at `\` and drive letters, is not modelled.
- `Candidates.SortLongestFirst`: lengths count Unicode scalar values, while JavaScript's `length` counts UTF-16 code units; the two differ only for characters outside the Basic Multilingual Plane.
- src/extension.ts, src/decrypt-command.ts and src/vault-document-provider.ts (command registration, virtual documents, progress UI) are not part of this model; neither are the two activation tests.
