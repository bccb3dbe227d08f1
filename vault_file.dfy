/** Recognising an encrypted Ansible Vault file by its header (`isEncryptedVaultFile`). */
module VaultFile {

  /** The header every encrypted vault file starts with. */
  const Magic: string := "$ANSIBLE_VAULT"

  /** Matches the literal `lit` character by character at the start of `s`, as the regex engine does. */
  function MatchesLiteral(s: string, lit: string): (r: bool)
    ensures r <==> lit <= s
  {
    if lit == [] then true
    else s != [] && s[0] == lit[0] && MatchesLiteral(s[1..], lit[1..])
  }

  /**
   * `content.match(/^\$ANSIBLE_VAULT/)` is non-null. The pattern has no `m`
   * flag, so `^` anchors at the start of the whole content only.
   */
  function IsEncryptedVaultFile(content: string): (r: bool)
    ensures r <==> |content| >= |Magic| && content[..|Magic|] == Magic
  {
    MatchesLiteral(content, Magic)
  }

  /** The magic text on a later line is not enough: `^` is not a line anchor here. */
  lemma MagicOnLaterLineIsRejected(firstLine: string, rest: string)
    requires firstLine != [] && firstLine[0] != '$'
    ensures !IsEncryptedVaultFile(firstLine + "\n" + Magic + rest)
  {
  }
}
