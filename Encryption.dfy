/**
 * Fail-open content codec (lib/encryption.ts). Stored content is `hex(iv) ":" hex(ciphertext)`
 * under AES-256 in CBC mode (FIPS 197; NIST SP 800-38A section 6.2) with PKCS#7 padding.
 * The block cipher, SHA-256 (FIPS 180-4) and UTF-8 are foreign primitives: they are the fields
 * of `Primitives`, and the facts the codec relies on are collected in `Lawful`.
 */
module Encryption {
  import opened Wrappers
  import opened Hex
  import Text

  const IV_LENGTH: nat := 16
  const KEY_LENGTH: nat := 32
  const BLOCK_SIZE: nat := 16

  datatype Primitives = Primitives(
    sha256: seq<byte> -> seq<byte>,
    utf8Encode: string -> seq<byte>,
    utf8Decode: seq<byte> -> string,
    /** `createCipheriv('aes-256-cbc', key, iv)` then `update` and `final`. */
    cbcEncrypt: (seq<byte>, seq<byte>, seq<byte>) -> seq<byte>,
    /** `createDecipheriv(...)` then `update` and `final`; `None` when any of them throws. */
    cbcDecrypt: (seq<byte>, seq<byte>, seq<byte>) -> Option<seq<byte>>)

  /** What the standards promise of the primitives, and what Node checks before deciphering. */
  ghost predicate Lawful(p: Primitives)
  {
    && (forall m :: |p.sha256(m)| == KEY_LENGTH)
    && (forall s :: p.utf8Decode(p.utf8Encode(s)) == s)
    && (forall k, iv, m :: |k| == KEY_LENGTH && |iv| == IV_LENGTH ==>
          |p.cbcEncrypt(k, iv, m)| == (|m| / BLOCK_SIZE + 1) * BLOCK_SIZE)
    && (forall k, iv, m :: |k| == KEY_LENGTH && |iv| == IV_LENGTH ==>
          p.cbcDecrypt(k, iv, p.cbcEncrypt(k, iv, m)) == Some(m))
    && (forall k, iv, c :: p.cbcDecrypt(k, iv, c).Some? ==> |k| == KEY_LENGTH && |iv| == IV_LENGTH)
  }

  /**
   * `getKey()`: `None` stands for the thrown "ENCRYPTION_KEY is not defined" error. `config` is
   * `process.env.ENCRYPTION_KEY || ''`.
   */
  function GetKey(config: string, p: Primitives): (key: Option<seq<byte>>)
    ensures key.None? <==> config == ""
    ensures key.Some? && |Decode(config)| == KEY_LENGTH ==> key.value == Decode(config)
    ensures key.Some? && |Decode(config)| != KEY_LENGTH ==> key.value == p.sha256(p.utf8Encode(config))
  {
    if config == "" then None
    else if |Decode(config)| == KEY_LENGTH then Some(Decode(config))
    else Some(p.sha256(p.utf8Encode(config)))
  }

  /** The derived key always has the length AES-256 needs. */
  lemma KeyHasCipherLength(config: string, p: Primitives)
    requires Lawful(p) && config != ""
    ensures GetKey(config, p).Some? && |GetKey(config, p).value| == KEY_LENGTH
  {
    if |Decode(config)| != KEY_LENGTH {
      assert |p.sha256(p.utf8Encode(config))| == KEY_LENGTH;
    }
  }

  /** The shape of a value `Encrypt` produced: two non-empty hex halves, the first 32 digits. */
  predicate IsCipherText(s: string)
  {
    var parts := Text.Split(s, ':');
    |parts| == 2 && |parts[0]| == 2 * IV_LENGTH && parts[1] != [] && AllHex(parts[0]) && AllHex(parts[1])
  }

  /**
   * `encrypt(text)` with `iv` the fresh `randomBytes(IV_LENGTH)`. A missing key makes `getKey`
   * throw inside the `try`, so the text comes back unchanged.
   */
  function Encrypt(text: string, config: string, iv: seq<byte>, p: Primitives): (r: string)
    requires |iv| == IV_LENGTH
    ensures text == "" ==> r == ""
    ensures config == "" ==> r == text
  {
    if text == "" then ""
    else
      match GetKey(config, p)
      case None => text
      case Some(key) => Encode(iv) + ":" + Encode(p.cbcEncrypt(key, iv, p.utf8Encode(text)))
  }

  /** `decrypt(text)`: every failure (shape, missing key, deciphering) returns `text` itself. */
  function Decrypt(text: string, config: string, p: Primitives): (r: string)
    ensures text == "" ==> r == ""
    ensures |Text.Split(text, ':')| != 2 ==> r == text
    ensures config == "" ==> r == text
  {
    if text == "" then ""
    else
      var parts := Text.Split(text, ':');
      if |parts| != 2 then text
      else
        match GetKey(config, p)
        case None => text
        case Some(key) =>
          match p.cbcDecrypt(key, Decode(parts[0]), Decode(parts[1]))
          case None => text
          case Some(plain) => p.utf8Decode(plain)
  }

  /** With a key configured, a non-empty text is emitted in the `iv:ciphertext` shape. */
  lemma EncryptShape(text: string, config: string, iv: seq<byte>, p: Primitives)
    requires Lawful(p) && |iv| == IV_LENGTH && text != "" && config != ""
    ensures IsCipherText(Encrypt(text, config, iv, p))
    ensures Text.Split(Encrypt(text, config, iv, p), ':')[0] == Encode(iv)
  {
    KeyHasCipherLength(config, p);
    var key := GetKey(config, p).value;
    var ct := p.cbcEncrypt(key, iv, p.utf8Encode(text));
    assert |ct| >= BLOCK_SIZE;
    EncodeHasNoColon(iv);
    EncodeHasNoColon(ct);
    Text.SplitAroundOne(Encode(iv), Encode(ct), ':');
  }

  /** `decrypt(encrypt(x)) == x` for every text, configuration and IV, the key being unchanged. */
  lemma RoundTrip(text: string, config: string, iv: seq<byte>, p: Primitives)
    requires Lawful(p) && |iv| == IV_LENGTH
    ensures Decrypt(Encrypt(text, config, iv, p), config, p) == text
  {
    if text != "" && config != "" {
      KeyHasCipherLength(config, p);
      var key := GetKey(config, p).value;
      var ct := p.cbcEncrypt(key, iv, p.utf8Encode(text));
      var s := Encrypt(text, config, iv, p);
      assert s == Encode(iv) + [':'] + Encode(ct);
      EncodeHasNoColon(iv);
      EncodeHasNoColon(ct);
      Text.SplitAroundOne(Encode(iv), Encode(ct), ':');
      DecodeEncode(iv);
      DecodeEncode(ct);
      assert p.cbcDecrypt(key, iv, ct) == Some(p.utf8Encode(text));
    }
  }

  /**
   * A stored value whose part before the colon does not decode to a 16-byte IV is returned as it
   * is: Node refuses the IV length. This covers legacy plain text such as "Dear diary: hi".
   */
  lemma BadIvPassesThrough(text: string, config: string, p: Primitives)
    requires Lawful(p)
    requires |Text.Split(text, ':')| == 2 && |Decode(Text.Split(text, ':')[0])| != IV_LENGTH
    ensures Decrypt(text, config, p) == text
  {
  }

  /** Deciphering that throws (wrong key, corrupt data, bad padding) hands back the stored value. */
  lemma FailedDecipherPassesThrough(text: string, config: string, p: Primitives)
    requires config != "" && |Text.Split(text, ':')| == 2
    requires p.cbcDecrypt(GetKey(config, p).value, Decode(Text.Split(text, ':')[0]),
                          Decode(Text.Split(text, ':')[1])).None?
    ensures Decrypt(text, config, p) == text
  {
  }

  /** A lone colon splits into two empty halves; the empty IV is refused and `":"` comes back. */
  lemma LoneColonPassesThrough(config: string, p: Primitives)
    requires Lawful(p)
    ensures Decrypt(":", config, p) == ":"
  {
    Text.SplitAroundOne("", "", ':');
    assert "" + [':'] + "" == ":";
  }
}
