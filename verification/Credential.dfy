/** The uploader's credential: the API key and a colon, base64-encoded into a 256-byte buffer. */
module Credential {
  import opened Base64
  import opened Trimming
  import Config

  const CREDENTIAL_SIZE: nat := 256
  const KEY_SIZE: nat := 256
  const COLON: Byte := 58

  /** The bytes of `"%s:"` and its NUL at the head of the temporary buffer. */
  ghost predicate Formatted(mem: seq<Byte>, key: seq<Byte>) {
    |key| + 1 < |mem| && mem[..|key| + 1] == key + [COLON] && mem[|key| + 1] == 0 && 0 !in key
  }

  /** sprintf writes key, colon and NUL; what follows in the buffer does not matter. */
  lemma SprintfFormats(key: seq<Byte>, rest: seq<Byte>)
    requires 0 !in key
    ensures Formatted(key + [58] + [0] + rest, key)
  {
    var mem := key + [58] + [0] + rest;
    assert mem[..|key| + 1] == key + [58] && mem[|key| + 1] == 0;
  }

  /** The colon makes the text non-empty, so `mystrlen` measures it correctly and the encoding
      decodes to it, for every key, the empty one included. */
  lemma CredentialRoundTrip(mem: seq<Byte>, key: seq<Byte>)
    requires Formatted(mem, key)
    ensures Scannable(mem) && Scanned(mem) == key + [58]
    ensures |Encode(ALPHABET, Scanned(mem))| % 4 == 0
    ensures Decode(ALPHABET, Encode(ALPHABET, Scanned(mem))) == key + [58]
  {
    var n := |key| + 1;
    assert forall k :: 0 <= k < n ==> mem[k] == (key + [COLON])[k] != 0;
    assert StringLength(mem, 1) == n;
    AlphabetIsGood();
    RoundTrip(ALPHABET, Scanned(mem));
  }

  /** A configured key is cut to 255 bytes, but its credential fits the buffer, NUL included,
      if and only if the configured value has at most 188. */
  lemma CredentialFitsIff(value: string, key: seq<Byte>)
    requires |key| == |Config.Cut(value, KEY_SIZE)|
    ensures |Encode(ALPHABET, key + [COLON])| < CREDENTIAL_SIZE <==> |value| <= 188
  {
    AlphabetIsGood();
    EncodingFitsIff(ALPHABET, key + [COLON]);
  }

  lemma EncodingFitsIff(al: string, s: seq<Byte>)
    requires Good(al)
    ensures |Encode(al, s)| < CREDENTIAL_SIZE <==> |s| <= 189
  {
    EncodedLength(al, s);
  }

  /** A configuration line sets the key to any stripped text of up to 255 characters ... */
  lemma KeyLine(c: Config.Settings, value: string)
    requires Stripped(value) && |value| < KEY_SIZE
    ensures Config.ApplyLine(c, "API_KEY=" + value + "\n").apiKey == value
  {
    Config.PaddedAssignment("", "API_KEY", "", "", value, "\n");
    assert "" + ("API_KEY" + "" + ("=" + ("" + value))) + "\n" == "API_KEY=" + value + "\n";
  }

  /** ... and from 189 on its credential does not fit. */
  lemma LongKeyOverflows(c: Config.Settings, value: string, key: seq<Byte>)
    requires Stripped(value) && 189 <= |value| < KEY_SIZE
    requires |key| == |Config.ApplyLine(c, "API_KEY=" + value + "\n").apiKey|
    ensures Config.ApplyLine(c, "API_KEY=" + value + "\n").apiKey == value
    ensures |Encode(ALPHABET, key + [COLON])| >= CREDENTIAL_SIZE
  {
    KeyLine(c, value);
    CredentialFitsIff(value, key);
  }
}
