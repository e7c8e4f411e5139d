/** `create_key` of `src/thumbtack/utils.py`: the key string handed to the mounting
    library for an encrypted volume, `<code>:<secret>`. */
module Credentials {
  import opened Wrappers

  /** The dictionary `{"key": ...}` that `create_key` returns. */
  datatype KeyArg = KeyArg(key: string)

  /** The one-letter code of a credential method the library understands. */
  function MethodCode(kind: string): (code: Option<char>)
    ensures code.Some? <==> kind in KnownMethods()
    ensures code == Some('p') <==> kind == "bitlocker password" || kind == "luks passphrase"
    ensures code == Some('r') <==> kind == "bitlocker recovery key"
    ensures code == Some('k') <==> kind == "bitlocker full volume encryption and tweak key"
  {
    if kind == "bitlocker password" then Some('p')
    else if kind == "bitlocker recovery key" then Some('r')
    else if kind == "bitlocker full volume encryption and tweak key" then Some('k')
    else if kind == "luks passphrase" then Some('p')
    else None
  }

  function KnownMethods(): set<string> {
    {"bitlocker password", "bitlocker recovery key",
     "bitlocker full volume encryption and tweak key", "luks passphrase"}
  }

  /** `create_key(method, key)`; `None` stands for Python's `None`. */
  function CreateKey(kind: Option<string>, key: Option<string>): (r: Option<KeyArg>)
    ensures kind.None? || key.None? ==> r.None?
    ensures kind.Some? && kind.value !in KnownMethods() ==> r.None?
    ensures r.Some? ==> |r.value.key| == |key.value| + 2 && r.value.key[1] == ':'
  {
    if kind.None? || key.None? then None
    else match MethodCode(kind.value)
      case None => None
      case Some(c) => Some(KeyArg([c, ':'] + key.value))
  }

  /** Splits a key argument back into its method code and secret. */
  function ParseKeyArg(arg: KeyArg): (r: Option<(char, string)>)
    ensures r.Some? ==> [r.value.0, ':'] + r.value.1 == arg.key
  {
    if |arg.key| >= 2 && arg.key[1] == ':' then Some((arg.key[0], arg.key[2..])) else None
  }

  /** A key is produced exactly when both arguments are given and the method is known,
      and it carries the method's code and the secret unchanged. */
  lemma CreateKeyRoundTrip(kind: Option<string>, key: Option<string>)
    ensures CreateKey(kind, key).Some? <==>
      kind.Some? && key.Some? && kind.value in KnownMethods()
    ensures CreateKey(kind, key).Some? ==>
      ParseKeyArg(CreateKey(kind, key).value) == Some((MethodCode(kind.value).value, key.value))
  {
    if CreateKey(kind, key).Some? {
      var k := CreateKey(kind, key).value.key;
      assert k[2..] == key.value;
    }
  }

  /** BitLocker passwords and LUKS passphrases share the code `p`. */
  lemma PasswordAndPassphraseShareCode(secret: string)
    ensures CreateKey(Some("bitlocker password"), Some(secret)) ==
      CreateKey(Some("luks passphrase"), Some(secret))
    ensures CreateKey(Some("luks passphrase"), Some(secret)) == Some(KeyArg("p:" + secret))
  {
  }
}
