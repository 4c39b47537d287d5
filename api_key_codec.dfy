/** The obfuscation of the Gemini API key in the settings file: the key's
    UTF-8 bytes are XORed with a repeating fixed key and the result is
    written as padded Base64; loading reverses both steps. */
module ApiKeyCodec {
  import opened Wrappers
  import opened Bytes
  import Base64
  import Utf8

  /** The fixed key text; the byte string literal in the source is its
      ASCII encoding. */
  const KeyText: string := "document_encoder_key_2024"

  const Key: seq<byte> := Utf8.AsciiBytes(KeyText)

  /** The key is 25 bytes long (the source's comment says 24, but the code
      uses the literal's real length), and it is the UTF-8 encoding of its
      text. */
  lemma KeyFacts()
    ensures |Key| == 25
    ensures Key == Utf8.Encode(KeyText)
    ensures Key[0] == 100 && Key[24] == 52
  {
    Utf8.EncodeAscii(KeyText);
  }

  /** Byte `i` of `data` XORed with byte `i mod 25` of the key. */
  function Masked(data: seq<byte>): (r: seq<byte>)
    ensures |r| == |data|
  {
    seq(|data|, i requires 0 <= i < |data| => Xor(data[i], Key[i % |Key|]))
  }

  /** Masking is its own inverse. */
  lemma MaskedTwice(data: seq<byte>)
    ensures Masked(Masked(data)) == data
  {
    var once := Masked(data);
    forall i | 0 <= i < |data| ensures Masked(once)[i] == data[i] {
      XorTwice(data[i], Key[i % |Key|]);
    }
  }

  /** The loop shared by both directions: builds the masked bytes one at a
      time. */
  method XorWithKey(data: seq<byte>) returns (out: seq<byte>)
    ensures out == Masked(data)
  {
    out := [];
    var i := 0;
    while i < |data|
      invariant 0 <= i <= |data|
      invariant out == Masked(data)[..i]
    {
      out := out + [Xor(data[i], Key[i % |Key|])];
      i := i + 1;
    }
  }

  /** What `encrypt_api_key` returns for `apiKey`. */
  function Encrypt(apiKey: string): string
  {
    Base64.Encode(Masked(Utf8.Encode(apiKey)))
  }

  /** What `decrypt_api_key` returns for `stored`: text that is not Base64
      comes back unchanged (keys saved before obfuscation existed), and
      unmasked bytes that are not UTF-8 give the empty string. */
  function Decrypt(stored: string): string
  {
    match Base64.Decode(stored)
    case None => stored
    case Some(bytes) =>
      match Utf8.Decode(Masked(bytes))
      case None => ""
      case Some(text) => text
  }

  method EncryptApiKey(apiKey: string) returns (stored: string)
    ensures stored == Encrypt(apiKey)
    ensures |stored| == 4 * ((|Utf8.Encode(apiKey)| + 2) / 3)
  {
    var masked := XorWithKey(Utf8.Encode(apiKey));
    stored := Base64.Encode(masked);
    Base64.EncodeLength(masked);
  }

  method DecryptApiKey(stored: string) returns (apiKey: string)
    ensures apiKey == Decrypt(stored)
  {
    var decoded := Base64.Decode(stored);
    if decoded.None? {
      return stored;
    }
    var unmasked := XorWithKey(decoded.value);
    var text := Utf8.Decode(unmasked);
    if text.None? {
      return "";
    }
    return text.value;
  }

  /** Decrypting an encrypted key gives the key back. */
  lemma DecryptEncrypt(apiKey: string)
    ensures Decrypt(Encrypt(apiKey)) == apiKey
  {
    var bytes := Utf8.Encode(apiKey);
    Base64.DecodeEncode(Masked(bytes));
    MaskedTwice(bytes);
    Utf8.DecodeEncode(apiKey);
  }

  /** Whatever decrypts to a key through the Base64 path is exactly the
      encryption of that key. */
  lemma EncryptDecrypt(stored: string)
    requires Base64.Decode(stored).Some?
    requires Utf8.Decode(Masked(Base64.Decode(stored).value)).Some?
    ensures Encrypt(Decrypt(stored)) == stored
  {
    var bytes := Base64.Decode(stored).value;
    var text := Utf8.Decode(Masked(bytes)).value;
    Utf8.EncodeDecode(Masked(bytes), text);
    MaskedTwice(bytes);
    Base64.EncodeDecode(stored, bytes);
  }

  /** A stored value whose length is not a multiple of 4 is not Base64 and
      is taken as a plain key. */
  lemma PlainKeyKept(stored: string)
    requires |stored| % 4 != 0
    ensures Decrypt(stored) == stored
  {
  }

  /** Base64 whose unmasked bytes are not UTF-8 decrypts to "". */
  lemma MalformedKeyEmpty(stored: string)
    requires Base64.Decode(stored).Some?
    requires Utf8.Decode(Masked(Base64.Decode(stored).value)).None?
    ensures Decrypt(stored) == ""
  {
  }
}
