/**
 * The test of index.php:17-19 that decides whether the configured admin password
 * is already a bcrypt hash or still plain text to be hashed.
 */
module Config {
  import opened Wrappers
  import opened Text

  /** filelight_is_bcrypt_hash on a string value: at least 60 characters, starting "$2". */
  predicate IsBcryptHash(v: string) {
    |v| >= 60 && StrPos(v, "$2") == Some(0)
  }

  /** The test reads as: long enough, and the first two characters are '$' and '2'. */
  lemma BcryptHashIff(v: string)
    ensures IsBcryptHash(v) <==> |v| >= 60 && v[0] == '$' && v[1] == '2'
  {
    StrPosZeroIsPrefix(v, "$2");
    if |v| >= 60 && v[0] == '$' && v[1] == '2' {
      assert v[..2] == "$2";
    }
  }

  /** How the stored `admin_password_hash` is taken (index.php:28-54). */
  datatype StoredKind = Missing | Hashed | PlainText

  function KindOf(stored: string): (k: StoredKind)
    ensures k == Missing <==> stored == ""
    ensures k == Hashed <==> IsBcryptHash(stored)
  {
    if stored == "" then Missing
    else if IsBcryptHash(stored) then Hashed
    else PlainText
  }

  /**
   * Without a config file the stored value is "admin123" (index.php:10), which is
   * not a hash: it is taken as a plain password and hashed.
   */
  lemma DefaultPasswordIsPlain()
    ensures KindOf("admin123") == PlainText
  {
  }
}
