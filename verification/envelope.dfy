/** The signed envelope (brEncrypt and brDecrypt in lib/base/crypto-helper.cpp): a message in
    base64, the character '@', and the message's digest encrypted with RSA. */
module Envelope {
  import opened StrUtils

  /** The primitives, which are not part of this model. An empty result stands for failure.
      RSA takes a key file name first. */
  datatype Crypto = Crypto(
    base64Encode: string -> string,
    base64Decode: string -> string,
    md5: string -> string,
    rsaEncrypt: (string, string) -> string,
    rsaDecrypt: (string, string) -> string)

  /** ASCII without NUL: what survives the conversion to a C string. */
  ghost predicate PlainText(m: string) {
    m != "" && forall i :: 0 <= i < |m| ==> 0 < m[i] as int < 0x80
  }

  /** Base64 and hexadecimal text never hold an '@' (sections 4 and 8 of RFC 4648), base64
      decoding undoes encoding, and the private key undoes the public one. */
  ghost predicate Sound(c: Crypto, publicKey: string, privateKey: string) {
    && (forall m :: '@' !in c.base64Encode(m))
    && (forall k, m :: '@' !in c.rsaEncrypt(k, m))
    && (forall m :: PlainText(m) ==> c.base64Decode(c.base64Encode(m)) == m)
    && (forall m :: c.rsaEncrypt(publicKey, m) != "" ==> c.rsaDecrypt(privateKey, c.rsaEncrypt(publicKey, m)) == m)
  }

  function Sealed(c: Crypto, publicKey: string, message: string): string {
    var encoded := c.base64Encode(message);
    if encoded == "" then ""
    else
      var digest := c.md5(message);
      if digest == "" then ""
      else
        var signed := c.rsaEncrypt(publicKey, digest);
        if signed == "" then "" else encoded + "@" + signed
  }

  function Opened(c: Crypto, privateKey: string, envelope: string): string {
    var fields := Fields(envelope, '@');
    if |fields| != 2 then ""
    else
      var plaintext := c.base64Decode(fields[0]);
      if plaintext != "" && c.md5(plaintext) == c.rsaDecrypt(privateKey, fields[1]) then plaintext else ""
  }

  method BrEncrypt(c: Crypto, publicKey: string, message: string) returns (result: string)
    ensures result == Sealed(c, publicKey, message)
  {
    result := c.base64Encode(message);
    if result == "" {
      return "";
    }
    var digest := c.md5(message);
    if digest == "" {
      return "";
    }
    result := result + ['@'];
    var signed := c.rsaEncrypt(publicKey, digest);
    if signed == "" {
      return "";
    }
    result := result + signed;
  }

  method BrDecrypt(c: Crypto, privateKey: string, envelope: string) returns (result: string)
    ensures result == Opened(c, privateKey, envelope)
  {
    var fields := SplitWithChar(envelope, '@', false);
    if |fields| != 2 {
      return "";
    }
    var plaintext := c.base64Decode(fields[0]);
    if plaintext == "" {
      return "";
    }
    var digest := c.md5(plaintext);
    var signed := c.rsaDecrypt(privateKey, fields[1]);
    if digest == signed {
      return plaintext;
    }
    return "";
  }

  lemma TwoFields(first: string, second: string)
    requires '@' !in first && '@' !in second
    ensures Fields(first + "@" + second, '@') == [first, second]
  {
    assert [first, second][1..] == [second];
    assert Join([first, second], '@') == first + "@" + second;
    SplitUndoesJoinWithChar([first, second], '@');
  }

  /** Sealing gives nothing exactly if one of the three primitives does, and otherwise the
      encoded message and the encrypted digest around one '@'. */
  lemma SealedMeans(c: Crypto, publicKey: string, message: string)
    ensures var encoded, signed := c.base64Encode(message), c.rsaEncrypt(publicKey, c.md5(message));
      && (Sealed(c, publicKey, message) == "" <==> encoded == "" || c.md5(message) == "" || signed == "")
      && (Sealed(c, publicKey, message) != "" ==> Sealed(c, publicKey, message) == encoded + "@" + signed)
  {
  }

  /** Every envelope sealed for a key opens with the matching key, to the message. */
  lemma SealedOpens(c: Crypto, publicKey: string, privateKey: string, message: string)
    requires Sound(c, publicKey, privateKey) && PlainText(message)
    ensures var envelope := Sealed(c, publicKey, message);
      envelope != "" ==> Opened(c, privateKey, envelope) == message
  {
    if Sealed(c, publicKey, message) != "" {
      TwoFields(c.base64Encode(message), c.rsaEncrypt(publicKey, c.md5(message)));
    }
  }

  /** An envelope opens to a message exactly if it is two parts around one '@', the first
      decodes to the message, and the second decrypts to the message's digest. */
  lemma OpensOnlyWithItsDigest(c: Crypto, privateKey: string, envelope: string, message: string)
    requires message != ""
    ensures Opened(c, privateKey, envelope) == message <==>
      exists first, second ::
        && '@' !in first && '@' !in second && envelope == first + "@" + second
        && c.base64Decode(first) == message && c.rsaDecrypt(privateKey, second) == c.md5(message)
  {
    var fields := Fields(envelope, '@');
    JoinUndoesSplit(envelope, '@');
    if Opened(c, privateKey, envelope) == message {
      var first, second := fields[0], fields[1];
      assert fields[1..] == [second];
      assert '@' !in first && '@' !in second && envelope == first + "@" + second;
    }
    if first, second :|
        '@' !in first && '@' !in second && envelope == first + "@" + second
        && c.base64Decode(first) == message && c.rsaDecrypt(privateKey, second) == c.md5(message) {
      TwoFields(first, second);
    }
  }
}
