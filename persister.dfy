/**
 * The encrypted cassette persister of vcrpy-encrypt: key generation, the
 * configuration guard, and the save and load operations that keep a cassette
 * on disk as `nonce (12 bytes) || AES-GCM ciphertext || tag (16 bytes)`,
 * optionally with a clear-text mirror beside it.
 *
 * Save and load are methods of `EncryptedPersister` that change a
 * `FileSystem` in place; each is proved to leave the result and the disk
 * that the functions `Save` and `Load` describe, and the lemmas state what
 * those functions guarantee.
 */
module Persister {
  import opened Wrappers
  import opened Bytes
  import opened Files
  import Aead

  // ---------------------------------------------------------------------
  // Errors

  /** The exceptions the two operations and key generation raise. */
  datatype Error =
    | ValueError(message: string)
    | NotConfiguredException(message: string)
    | InvalidTag                      // raised by AESGCM.decrypt
    | DeserializationError            // raised by vcr's deserialize

  const InvalidBitLengthMessage: string := "Invalid bit_length: choose between 128, 192 and 256"
  const MissingKeyMessage: string := "Missing encryption key. Check the documentation!"
  const CassetteNotFoundMessage: string := "Cassette not found."

  // ---------------------------------------------------------------------
  // Key generation

  // Python's `string` constants.
  const AsciiUppercase: string := "ABCDEFGHIJKLMNOPQRSTUVWXYZ"
  const Digits: string := "0123456789"
  const AsciiLowercase: string := "abcdefghijklmnopqrstuvwxyz"
  const Punctuation: string := "!\"#$%&'()*+,-./:;<=>?@[\\]^_`{|}~"

  /** The characters a generated key is drawn from. */
  const AvailableChars: string := AsciiUppercase + Digits + AsciiLowercase + Punctuation

  /** An index into `AvailableChars`: what one `secrets.choice` draw picks. */
  type CharIndex = i: nat | i < 94

  /** Printable ASCII other than space: '!' through '~'. */
  predicate IsPrintableAscii(b: int)
  {
    0x21 <= b <= 0x7E
  }

  /** The code of each character of the four `string` constants, by position. */
  lemma StringConstantCodes()
    ensures |AsciiUppercase| == 26 && forall i :: 0 <= i < 26 ==> AsciiUppercase[i] as int == 'A' as int + i
    ensures |Digits| == 10 && forall i :: 0 <= i < 10 ==> Digits[i] as int == '0' as int + i
    ensures |AsciiLowercase| == 26 && forall i :: 0 <= i < 26 ==> AsciiLowercase[i] as int == 'a' as int + i
    ensures |Punctuation| == 32
    ensures forall i :: 0 <= i < 15 ==> Punctuation[i] as int == 0x21 + i
    ensures forall i :: 15 <= i < 22 ==> Punctuation[i] as int == 0x3A + (i - 15)
    ensures forall i :: 22 <= i < 28 ==> Punctuation[i] as int == 0x5B + (i - 22)
    ensures forall i :: 28 <= i < 32 ==> Punctuation[i] as int == 0x7B + (i - 28)
  {
  }

  /** Position i of the alphabet holds the code `AvailableCode(i)`. */
  function AvailableCode(i: int): int
  {
    if i < 26 then 'A' as int + i
    else if i < 36 then '0' as int + (i - 26)
    else if i < 62 then 'a' as int + (i - 36)
    else if i < 62 + 15 then 0x21 + (i - 62)
    else if i < 62 + 22 then 0x3A + (i - 62 - 15)
    else if i < 62 + 28 then 0x5B + (i - 62 - 22)
    else 0x7B + (i - 62 - 28)
  }

  lemma AvailableCharsCodes()
    ensures |AvailableChars| == 94
    ensures forall i :: 0 <= i < 94 ==> AvailableChars[i] as int == AvailableCode(i)
  {
    StringConstantCodes();
    var s := AvailableChars;
    forall i | 0 <= i < 94 ensures s[i] as int == AvailableCode(i) {
      if i < 26 { assert s[i] == AsciiUppercase[i]; }
      else if i < 36 { assert s[i] == Digits[i - 26]; }
      else if i < 62 { assert s[i] == AsciiLowercase[i - 36]; }
      else { assert s[i] == Punctuation[i - 62]; }
    }
  }

  /**
   * The available characters are exactly the 94 printable, non-space ASCII
   * characters: each of them is printable ASCII, and every printable ASCII
   * character occurs among them.
   */
  lemma AvailableCharsArePrintableAscii()
    ensures |AvailableChars| == 94
    ensures forall i :: 0 <= i < 94 ==> AvailableChars[i] as int < 0x80 && IsPrintableAscii(AvailableChars[i] as int)
    ensures forall c: char :: IsPrintableAscii(c as int) ==> c in AvailableChars
  {
    AvailableCharsCodes();
    forall c: char | IsPrintableAscii(c as int) ensures c in AvailableChars {
      var n := c as int;
      var i :=
        if 'A' as int <= n <= 'Z' as int then n - 'A' as int
        else if '0' as int <= n <= '9' as int then 26 + (n - '0' as int)
        else if 'a' as int <= n <= 'z' as int then 36 + (n - 'a' as int)
        else if n < 0x3A then 62 + (n - 0x21)
        else if n < 0x5B then 62 + 15 + (n - 0x3A)
        else if n < 0x7B then 62 + 22 + (n - 0x5B)
        else 62 + 28 + (n - 0x7B);
      assert AvailableChars[i] as int == AvailableCode(i) == n;
    }
  }

  /**
   * `generate_key(bit_length)`, with the random source as `draw`: the i-th
   * key character is `AvailableChars[draw(i)]`.
   */
  function GenerateKey(bitLength: int := 128, draw: nat -> CharIndex): (r: Result<seq<byte>, Error>)
    ensures r.Failure? <==> bitLength != 128 && bitLength != 192 && bitLength != 256
    ensures r.Failure? ==> r.error == ValueError(InvalidBitLengthMessage)
    ensures r.Success? ==> |r.value| == bitLength / 8
    ensures r.Success? ==> forall i :: 0 <= i < |r.value| ==>
              r.value[i] == AvailableChars[draw(i)] as int && IsPrintableAscii(r.value[i])
  {
    if bitLength !in [128, 192, 256] then Failure(ValueError(InvalidBitLengthMessage))
    else
      var length := bitLength / 8;
      var chars := seq(length, i requires 0 <= i < length => AvailableChars[draw(i)]);
      AvailableCharsArePrintableAscii();
      EncodeUtf8KeepsLengthIffAscii(chars);
      Success(EncodeUtf8(chars))
  }

  /** Called without a bit length, `generate_key()` makes a 128-bit key of 16 bytes. */
  lemma DefaultKeyHas16Bytes(draw: nat -> CharIndex)
    ensures GenerateKey(draw := draw).Success?
    ensures |GenerateKey(draw := draw).value| == 16
  {
  }

  // ---------------------------------------------------------------------
  // Configuration

  /**
   * The class attributes a persister subclass sets: the key (`None` until an
   * integrator provides one), whether to keep a clear-text mirror, and the
   * two file-name suffixes.
   */
  datatype Config = Config(
    encryptionKey: Option<seq<byte>>,
    shouldOutputClearTextAsWell: bool,
    clearTextSuffix: string,
    encodedSuffix: string)

  /** `BaseEncryptedPersister`'s own attribute values. */
  const BaseConfig: Config := Config(None, false, "", ".enc")

  /** `_get_encryption_key`: the configured key, or `NotConfiguredException` when there is none. */
  function GetEncryptionKey(config: Config): (r: Result<seq<byte>, Error>)
    ensures r.Failure? <==> config.encryptionKey.None?
    ensures r.Failure? ==> r.error == NotConfiguredException(MissingKeyMessage)
    ensures r.Success? ==> r.value == config.encryptionKey.value
  {
    match config.encryptionKey
    case None => Failure(NotConfiguredException(MissingKeyMessage))
    case Some(key) => Success(key)
  }

  function EncodedPath(config: Config, cassettePath: Path): Path
  {
    cassettePath + config.encodedSuffix
  }

  function ClearTextPath(config: Config, cassettePath: Path): Path
  {
    cassettePath + config.clearTextSuffix
  }

  /** Appending suffixes to one path gives the same name only for the same suffix. */
  lemma SuffixedPathsDiffer(cassettePath: Path, s1: string, s2: string)
    requires s1 != s2
    ensures cassettePath + s1 != cassettePath + s2
  {
    assert (cassettePath + s1)[|cassettePath|..] == s1;
    assert (cassettePath + s2)[|cassettePath|..] == s2;
  }

  // ---------------------------------------------------------------------
  // The encoded file layout

  /** Length of the nonce at the head of an encoded cassette. */
  const NonceSize: nat := 12

  type Nonce = s: seq<byte> | |s| == NonceSize witness [0, 0, 0, 0, 0, 0, 0, 0, 0, 0, 0, 0]

  /**
   * The two reads of load: `f.read(12)` then `f.read(-1)`. The first gives
   * at most 12 bytes (fewer when the file is shorter), the second the rest.
   */
  function SplitNonce(blob: seq<byte>): (parts: (seq<byte>, seq<byte>))
    ensures |parts.0| == Min(NonceSize, |blob|)
    ensures parts.0 + parts.1 == blob
  {
    var n := Min(NonceSize, |blob|);
    (blob[..n], blob[n..])
  }

  /** Splitting what save writes gives back its nonce and its tagged ciphertext. */
  lemma SplitNonceOfLayout(nonce: Nonce, tagged: seq<byte>)
    ensures SplitNonce(nonce + tagged) == (nonce, tagged)
  {
    var parts := SplitNonce(nonce + tagged);
    assert parts.0 == (nonce + tagged)[..NonceSize] == nonce;
  }

  // ---------------------------------------------------------------------
  // The serializer collaborator

  /**
   * vcr's `serialize(cassette_dict, serializer)` and
   * `deserialize(cassette_string, serializer)` for the serializer the host
   * passes in; `None` from `deserialize` stands for the exception it raises
   * on malformed text.
   */
  datatype Serializer<!C> = Serializer(serialize: C -> string, deserialize: seq<byte> -> Option<C>)

  /** The serializer reads back what it wrote for this cassette. */
  ghost predicate RoundTrips<C>(serializer: Serializer<C>, cassette: C)
  {
    serializer.deserialize(EncodeUtf8(serializer.serialize(cassette))) == Some(cassette)
  }

  // ---------------------------------------------------------------------
  // What load and save do

  /** What `deserialize` makes of decrypted content. */
  function Deserialized<C>(serializer: Serializer<C>, content: seq<byte>): Result<C, Error>
  {
    match serializer.deserialize(content)
    case None => Failure(DeserializationError)
    case Some(cassette) => Success(cassette)
  }

  /**
   * `load_cassette(cassette_path, serializer)`: the value it returns or the
   * exception it raises, and the disk afterwards.
   */
  function Load<C>(config: Config, disk: Disk, cassettePath: Path, serializer: Serializer<C>): (Result<C, Error>, Disk)
  {
    var encoded := EncodedPath(config, cassettePath);
    if !IsFile(disk, encoded) then (Failure(ValueError(CassetteNotFoundMessage)), disk)
    else
      var (nonce, tagged) := SplitNonce(disk.files[encoded]);
      match GetEncryptionKey(config)
      case Failure(e) => (Failure(e), disk)
      case Success(key) =>
        match Aead.Decrypt(key, nonce, tagged)
        case None => (Failure(InvalidTag), disk)
        case Some(content) =>
          var clearText := ClearTextPath(config, cassettePath);
          var disk' :=
            if config.shouldOutputClearTextAsWell && !IsFile(disk, clearText) then WriteFile(disk, clearText, content)
            else disk;
          (Deserialized(serializer, content), disk')
  }

  /** The disk after save's steps that come before the key lookup. */
  function BeforeKeyLookup(config: Config, disk: Disk, cassettePath: Path, data: string): Disk
  {
    var dirname := DirName(cassettePath);
    var disk1 := if dirname != [] && !Exists(disk, dirname) then MadeDirs(disk, dirname) else disk;
    if config.shouldOutputClearTextAsWell then WriteFile(disk1, ClearTextPath(config, cassettePath), EncodeUtf8(data))
    else disk1
  }

  /**
   * `save_cassette(cassette_path, cassette_dict, serializer)` with
   * `os.urandom(12)` returning `nonce`: whether it raised, and the disk afterwards.
   */
  function Save<C>(config: Config, disk: Disk, cassettePath: Path, cassette: C, serializer: Serializer<C>, nonce: Nonce): (Outcome<Error>, Disk)
  {
    var data := serializer.serialize(cassette);
    var disk2 := BeforeKeyLookup(config, disk, cassettePath, data);
    match GetEncryptionKey(config)
    case Failure(e) => (Fail(e), disk2)
    case Success(key) =>
      var tagged := Aead.Encrypt(key, nonce, EncodeUtf8(data));
      (Pass, WriteFile(disk2, EncodedPath(config, cassettePath), nonce + tagged))
  }

  // ---------------------------------------------------------------------
  // Properties of save

  /**
   * With a key configured, save succeeds and the encoded file ends up
   * holding the nonce followed by the tagged ciphertext of the UTF-8 text:
   * 12 + |plaintext| + 16 bytes.
   */
  lemma SaveWritesNonceThenTaggedCiphertext<C>(config: Config, disk: Disk, cassettePath: Path, cassette: C, serializer: Serializer<C>, nonce: Nonce)
    requires config.encryptionKey.Some?
    ensures var (outcome, disk') := Save(config, disk, cassettePath, cassette, serializer, nonce);
            var plaintext := EncodeUtf8(serializer.serialize(cassette));
            var encoded := EncodedPath(config, cassettePath);
            && outcome == Pass
            && IsFile(disk', encoded)
            && disk'.files[encoded] == nonce + Aead.Encrypt(config.encryptionKey.value, nonce, plaintext)
            && |disk'.files[encoded]| == NonceSize + |plaintext| + Aead.TagSize
  {
  }

  /**
   * Without a key, save raises `NotConfiguredException`, but only after it
   * has created the parent directory and written the clear-text mirror.
   */
  lemma SaveWithoutKeyRaisesAfterEarlierSteps<C>(config: Config, disk: Disk, cassettePath: Path, cassette: C, serializer: Serializer<C>, nonce: Nonce)
    requires config.encryptionKey.None?
    ensures var (outcome, disk') := Save(config, disk, cassettePath, cassette, serializer, nonce);
            var dirname := DirName(cassettePath);
            var clearText := ClearTextPath(config, cassettePath);
            && outcome == Fail(NotConfiguredException(MissingKeyMessage))
            && (dirname != [] ==> Exists(disk', dirname))
            && (config.shouldOutputClearTextAsWell ==>
                  IsFile(disk', clearText) && disk'.files[clearText] == EncodeUtf8(serializer.serialize(cassette)))
  {
  }

  /**
   * Without a key, save leaves the encoded file as it was (unless the
   * clear-text mirror is written under the very same name).
   */
  lemma SaveWithoutKeyKeepsEncodedFile<C>(config: Config, disk: Disk, cassettePath: Path, cassette: C, serializer: Serializer<C>, nonce: Nonce)
    requires config.encryptionKey.None?
    requires !config.shouldOutputClearTextAsWell || config.clearTextSuffix != config.encodedSuffix
    ensures var disk' := Save(config, disk, cassettePath, cassette, serializer, nonce).1;
            var encoded := EncodedPath(config, cassettePath);
            && (IsFile(disk', encoded) <==> IsFile(disk, encoded))
            && (IsFile(disk, encoded) ==> disk'.files[encoded] == disk.files[encoded])
  {
    var encoded := EncodedPath(config, cassettePath);
    var clearText := ClearTextPath(config, cassettePath);
    var disk' := Save(config, disk, cassettePath, cassette, serializer, nonce).1;
    if config.shouldOutputClearTextAsWell {
      SuffixedPathsDiffer(cassettePath, config.clearTextSuffix, config.encodedSuffix);
      assert disk'.files - {clearText} == disk.files - {clearText};
      assert encoded in disk'.files <==> encoded in (disk'.files - {clearText});
      assert encoded in disk.files <==> encoded in (disk.files - {clearText});
    } else {
      assert disk'.files == disk.files;
    }
  }

  /**
   * Save (re)writes the clear-text mirror with the serialized text exactly
   * when the option is on; when it is off, the clear-text name is left as it
   * was (in particular, no clear-text file is created).
   */
  lemma SaveWritesClearTextIffEnabled<C>(config: Config, disk: Disk, cassettePath: Path, cassette: C, serializer: Serializer<C>, nonce: Nonce)
    requires config.clearTextSuffix != config.encodedSuffix
    ensures var disk' := Save(config, disk, cassettePath, cassette, serializer, nonce).1;
            var clearText := ClearTextPath(config, cassettePath);
            && (config.shouldOutputClearTextAsWell ==>
                  IsFile(disk', clearText) && disk'.files[clearText] == EncodeUtf8(serializer.serialize(cassette)))
            && (!config.shouldOutputClearTextAsWell ==>
                  (IsFile(disk', clearText) <==> IsFile(disk, clearText))
                  && (IsFile(disk, clearText) ==> disk'.files[clearText] == disk.files[clearText]))
  {
    var clearText := ClearTextPath(config, cassettePath);
    var encoded := EncodedPath(config, cassettePath);
    SuffixedPathsDiffer(cassettePath, config.clearTextSuffix, config.encodedSuffix);
    var data := serializer.serialize(cassette);
    var disk2 := BeforeKeyLookup(config, disk, cassettePath, data);
    var disk' := Save(config, disk, cassettePath, cassette, serializer, nonce).1;
    assert disk'.files - {encoded} == disk2.files - {encoded};
    assert clearText in disk'.files <==> clearText in (disk'.files - {encoded});
    assert clearText in disk2.files <==> clearText in (disk2.files - {encoded});
    if !config.shouldOutputClearTextAsWell {
      assert disk2.files == disk.files;
    }
  }

  /**
   * Save touches no file but the clear-text mirror and the encoded file
   * (only the encoded one when the mirror is off), and the only directories
   * it adds are the cassette's parent and that parent's ancestors, which
   * exist afterwards.
   */
  lemma SaveChangesOnlyItsFiles<C>(config: Config, disk: Disk, cassettePath: Path, cassette: C, serializer: Serializer<C>, nonce: Nonce)
    ensures var disk' := Save(config, disk, cassettePath, cassette, serializer, nonce).1;
            var dirname := DirName(cassettePath);
            var touched := {ClearTextPath(config, cassettePath), EncodedPath(config, cassettePath)};
            && disk'.files - touched == disk.files - touched
            && (!config.shouldOutputClearTextAsWell ==>
                  disk'.files - {EncodedPath(config, cassettePath)} == disk.files - {EncodedPath(config, cassettePath)})
            && disk.dirs <= disk'.dirs <= disk.dirs + Ancestors(dirname)
            && (dirname != [] ==> Exists(disk', dirname))
  {
  }

  /**
   * `BaseEncryptedPersister` used as it is: a first load finds no cassette,
   * and the save that follows raises `NotConfiguredException` without
   * writing an encoded file.
   */
  lemma BasePersisterIsNotConfigured<C>(disk: Disk, cassettePath: Path, cassette: C, serializer: Serializer<C>, nonce: Nonce)
    requires !IsFile(disk, EncodedPath(BaseConfig, cassettePath))
    ensures Load(BaseConfig, disk, cassettePath, serializer).0 == Failure(ValueError(CassetteNotFoundMessage))
    ensures var (outcome, saved) := Save(BaseConfig, disk, cassettePath, cassette, serializer, nonce);
            && outcome == Fail(NotConfiguredException(MissingKeyMessage))
            && !IsFile(saved, EncodedPath(BaseConfig, cassettePath))
  {
    SaveWithoutKeyKeepsEncodedFile(BaseConfig, disk, cassettePath, cassette, serializer, nonce);
  }

  // ---------------------------------------------------------------------
  // Properties of load

  /**
   * A missing encoded file raises `ValueError("Cassette not found.")` and
   * changes nothing, whatever the configuration: the file is opened before
   * the key is looked up.
   */
  lemma LoadMissingCassette<C>(config: Config, disk: Disk, cassettePath: Path, serializer: Serializer<C>)
    requires !IsFile(disk, EncodedPath(config, cassettePath))
    ensures Load(config, disk, cassettePath, serializer) == (Failure(ValueError(CassetteNotFoundMessage)), disk)
  {
  }

  /** An existing encoded file and no key: `NotConfiguredException`, nothing written. */
  lemma LoadWithoutKey<C>(config: Config, disk: Disk, cassettePath: Path, serializer: Serializer<C>)
    requires IsFile(disk, EncodedPath(config, cassettePath))
    requires config.encryptionKey.None?
    ensures Load(config, disk, cassettePath, serializer) == (Failure(NotConfiguredException(MissingKeyMessage)), disk)
  {
  }

  /**
   * An encoded file shorter than a nonce and a tag cannot authenticate: load
   * raises `InvalidTag` and writes nothing.
   */
  lemma LoadRejectsShortFile<C>(config: Config, disk: Disk, cassettePath: Path, serializer: Serializer<C>)
    requires IsFile(disk, EncodedPath(config, cassettePath))
    requires config.encryptionKey.Some?
    requires |disk.files[EncodedPath(config, cassettePath)]| < NonceSize + Aead.TagSize
    ensures Load(config, disk, cassettePath, serializer) == (Failure(InvalidTag), disk)
  {
    var blob := disk.files[EncodedPath(config, cassettePath)];
    var (nonce, tagged) := SplitNonce(blob);
    assert |tagged| < Aead.TagSize;
  }

  /**
   * Whenever load gets as far as deserializing, the encoded file was exactly
   * a 12-byte nonce followed by the encryption, under the configured key and
   * that nonce, of the content it deserialized: it never returns a cassette
   * read from anything else.
   */
  lemma LoadDecryptsOnlyAuthenticFiles<C>(config: Config, disk: Disk, cassettePath: Path, serializer: Serializer<C>)
    requires IsFile(disk, EncodedPath(config, cassettePath))
    requires config.encryptionKey.Some?
    ensures var r := Load(config, disk, cassettePath, serializer).0;
            var blob := disk.files[EncodedPath(config, cassettePath)];
            var key := config.encryptionKey.value;
            (r.Success? || r == Failure(DeserializationError)) ==>
              && |blob| >= NonceSize + Aead.TagSize
              && Aead.Decrypt(key, blob[..NonceSize], blob[NonceSize..]).Some?
              && var content := Aead.Decrypt(key, blob[..NonceSize], blob[NonceSize..]).value;
                 && blob == blob[..NonceSize] + Aead.Encrypt(key, blob[..NonceSize], content)
                 && r == Deserialized(serializer, content)
  {
    var blob := disk.files[EncodedPath(config, cassettePath)];
    var key := config.encryptionKey.value;
    var (nonce, tagged) := SplitNonce(blob);
    var decrypted := Aead.Decrypt(key, nonce, tagged);
    if decrypted.Some? {
      assert |nonce| == NonceSize;
      assert nonce == blob[..NonceSize] && tagged == blob[NonceSize..];
      Aead.DecryptAcceptsOnlyEncryptions(key, nonce, tagged);
    }
  }

  /**
   * Load writes at most one file, the clear-text mirror, and only when the
   * option is on, the content decrypted and no such file exists yet: an
   * existing clear-text file is never overwritten, and directories are never
   * created.
   */
  lemma LoadNeverOverwritesClearText<C>(config: Config, disk: Disk, cassettePath: Path, serializer: Serializer<C>)
    ensures var disk' := Load(config, disk, cassettePath, serializer).1;
            var clearText := ClearTextPath(config, cassettePath);
            && disk'.dirs == disk.dirs
            && disk'.files - {clearText} == disk.files - {clearText}
            && (IsFile(disk, clearText) ==> disk' == disk)
            && (!config.shouldOutputClearTextAsWell ==> disk' == disk)
            && (disk' != disk ==> IsFile(disk', clearText) && !IsFile(disk, clearText))
  {
  }

  /**
   * When load does write the clear-text mirror, what it writes is the
   * decrypted content of the encoded file.
   */
  lemma LoadMirrorsDecryptedContent<C>(config: Config, disk: Disk, cassettePath: Path, serializer: Serializer<C>)
    requires Load(config, disk, cassettePath, serializer).1 != disk
    ensures var disk' := Load(config, disk, cassettePath, serializer).1;
            var blob := disk.files[EncodedPath(config, cassettePath)];
            var clearText := ClearTextPath(config, cassettePath);
            && config.shouldOutputClearTextAsWell
            && config.encryptionKey.Some?
            && IsFile(disk, EncodedPath(config, cassettePath))
            && Aead.Decrypt(config.encryptionKey.value, SplitNonce(blob).0, SplitNonce(blob).1) == Some(disk'.files[clearText])
  {
  }

  // ---------------------------------------------------------------------
  // Save then load

  /**
   * Loading what save wrote, with the same configuration and path, decrypts
   * the serialized text and hands it to `deserialize`, and writes nothing.
   */
  lemma SaveThenLoad<C>(config: Config, disk: Disk, cassettePath: Path, cassette: C, serializer: Serializer<C>, nonce: Nonce)
    requires config.encryptionKey.Some?
    ensures var saved := Save(config, disk, cassettePath, cassette, serializer, nonce).1;
            Load(config, saved, cassettePath, serializer)
              == (Deserialized(serializer, EncodeUtf8(serializer.serialize(cassette))), saved)
  {
    var key := config.encryptionKey.value;
    var plaintext := EncodeUtf8(serializer.serialize(cassette));
    var tagged := Aead.Encrypt(key, nonce, plaintext);
    SaveWritesNonceThenTaggedCiphertext(config, disk, cassettePath, cassette, serializer, nonce);
    SplitNonceOfLayout(nonce, tagged);
    Aead.DecryptEncrypt(key, nonce, plaintext);
  }

  /** With a serializer that reads back what it writes, load returns the saved cassette. */
  lemma SaveThenLoadRecoversCassette<C>(config: Config, disk: Disk, cassettePath: Path, cassette: C, serializer: Serializer<C>, nonce: Nonce)
    requires config.encryptionKey.Some?
    requires RoundTrips(serializer, cassette)
    ensures var saved := Save(config, disk, cassettePath, cassette, serializer, nonce).1;
            Load(config, saved, cassettePath, serializer).0 == Success(cassette)
  {
    SaveThenLoad(config, disk, cassettePath, cassette, serializer, nonce);
  }

  /**
   * A cassette saved without the mirror and replayed with the mirror on gets
   * its clear-text file then, with the same bytes a save with the mirror on
   * would have written.
   */
  lemma ReplayWritesDelayedClearText<C>(config: Config, disk: Disk, cassettePath: Path, cassette: C, serializer: Serializer<C>, nonce: Nonce)
    requires config.encryptionKey.Some? && !config.shouldOutputClearTextAsWell
    requires config.clearTextSuffix != config.encodedSuffix
    requires !IsFile(disk, ClearTextPath(config, cassettePath))
    ensures var clearConfig := config.(shouldOutputClearTextAsWell := true);
            var clearText := ClearTextPath(config, cassettePath);
            var saved := Save(config, disk, cassettePath, cassette, serializer, nonce).1;
            var replayed := Load(clearConfig, saved, cassettePath, serializer).1;
            && !IsFile(saved, clearText)
            && IsFile(replayed, clearText)
            && replayed.files[clearText] == EncodeUtf8(serializer.serialize(cassette))
            && replayed.files[clearText] == Save(clearConfig, disk, cassettePath, cassette, serializer, nonce).1.files[clearText]
  {
    var clearConfig := config.(shouldOutputClearTextAsWell := true);
    var key := config.encryptionKey.value;
    var plaintext := EncodeUtf8(serializer.serialize(cassette));
    var tagged := Aead.Encrypt(key, nonce, plaintext);
    SaveWritesClearTextIffEnabled(config, disk, cassettePath, cassette, serializer, nonce);
    SaveWritesClearTextIffEnabled(clearConfig, disk, cassettePath, cassette, serializer, nonce);
    SaveWritesNonceThenTaggedCiphertext(config, disk, cassettePath, cassette, serializer, nonce);
    SplitNonceOfLayout(nonce, tagged);
    Aead.DecryptEncrypt(key, nonce, plaintext);
  }

  /**
   * The suffixes change only the names of the files: two configurations that
   * agree on key and mirror option save the same bytes under their own
   * encoded names, and load the same result from the same bytes.
   */
  lemma SuffixesOnlyRenameFiles<C>(config1: Config, config2: Config, disk1: Disk, disk2: Disk, cassettePath: Path, cassette: C, serializer: Serializer<C>, nonce: Nonce)
    requires config1.encryptionKey == config2.encryptionKey
    requires config1.shouldOutputClearTextAsWell == config2.shouldOutputClearTextAsWell
    ensures var (outcome1, saved1) := Save(config1, disk1, cassettePath, cassette, serializer, nonce);
            var (outcome2, saved2) := Save(config2, disk2, cassettePath, cassette, serializer, nonce);
            && outcome1 == outcome2
            && (outcome1 == Pass ==>
                  saved1.files[EncodedPath(config1, cassettePath)] == saved2.files[EncodedPath(config2, cassettePath)])
    ensures var encoded1 := EncodedPath(config1, cassettePath);
            var encoded2 := EncodedPath(config2, cassettePath);
            (IsFile(disk1, encoded1) <==> IsFile(disk2, encoded2))
            && (IsFile(disk1, encoded1) ==> disk1.files[encoded1] == disk2.files[encoded2])
            ==> Load(config1, disk1, cassettePath, serializer).0 == Load(config2, disk2, cassettePath, serializer).0
  {
  }

  // ---------------------------------------------------------------------
  // The persister

  /**
   * A persister class: its configuration is fixed when it is defined, and its
   * two operations change the file system in place.
   */
  class EncryptedPersister {
    const config: Config

    constructor (config: Config)
      ensures this.config == config
    {
      this.config := config;
    }

    /** `load_cassette(cassette_path, serializer)`. */
    method LoadCassette<C>(fs: FileSystem, cassettePath: Path, serializer: Serializer<C>) returns (r: Result<C, Error>)
      modifies fs
      ensures (r, fs.State()) == Load(config, old(fs.State()), cassettePath, serializer)
    {
      ghost var disk := fs.State();
      var contents := fs.ReadAll(cassettePath + config.encodedSuffix);
      if contents.None? {
        return Failure(ValueError(CassetteNotFoundMessage));
      }
      var blob := contents.value;
      var nonce := blob[..Min(NonceSize, |blob|)];
      var tagged := blob[|nonce|..];
      assert SplitNonce(blob) == (nonce, tagged);
      var key := GetEncryptionKey(config);
      if key.Failure? {
        return Failure(key.error);
      }
      var cassetteContent := Aead.Decrypt(key.value, nonce, tagged);
      if cassetteContent.None? {
        return Failure(InvalidTag);
      }
      var clearTextCassette := cassettePath + config.clearTextSuffix;
      if config.shouldOutputClearTextAsWell && !IsFile(fs.State(), clearTextCassette) {
        fs.Create(clearTextCassette);
        fs.Write(clearTextCassette, cassetteContent.value);
        CreateThenWrite(disk.files, clearTextCassette, cassetteContent.value);
        assert fs.files == disk.files[clearTextCassette := cassetteContent.value];
        assert fs.State() == WriteFile(disk, clearTextCassette, cassetteContent.value);
      }
      r := Deserialized(serializer, cassetteContent.value);
    }

    /** `save_cassette(cassette_path, cassette_dict, serializer)`, with `nonce` for `os.urandom(12)`. */
    method SaveCassette<C>(fs: FileSystem, cassettePath: Path, cassette: C, serializer: Serializer<C>, nonce: Nonce) returns (outcome: Outcome<Error>)
      modifies fs
      ensures (outcome, fs.State()) == Save(config, old(fs.State()), cassettePath, cassette, serializer, nonce)
    {
      ghost var disk := fs.State();
      var data := serializer.serialize(cassette);
      var dirname := DirName(cassettePath);
      if dirname != [] && !Exists(fs.State(), dirname) {
        fs.MakeDirs(dirname);
      }
      ghost var disk1 := fs.State();
      if config.shouldOutputClearTextAsWell {
        var clearTextCassette := cassettePath + config.clearTextSuffix;
        fs.Create(clearTextCassette);
        fs.Write(clearTextCassette, EncodeUtf8(data));
        CreateThenWrite(disk1.files, clearTextCassette, EncodeUtf8(data));
        assert fs.files == disk1.files[clearTextCassette := EncodeUtf8(data)];
      }
      ghost var disk2 := fs.State();
      assert disk2 == BeforeKeyLookup(config, disk, cassettePath, data);
      var key := GetEncryptionKey(config);
      if key.Failure? {
        return Fail(key.error);
      }
      var taggedCiphertext := Aead.Encrypt(key.value, nonce, EncodeUtf8(data));
      var encodedCassette := cassettePath + config.encodedSuffix;
      fs.Create(encodedCassette);
      fs.Write(encodedCassette, nonce);
      fs.Write(encodedCassette, taggedCiphertext);
      CreateThenWriteTwice(disk2.files, encodedCassette, nonce, taggedCiphertext);
      assert fs.files == disk2.files[encodedCassette := nonce + taggedCiphertext];
      assert fs.State() == WriteFile(disk2, encodedCassette, nonce + taggedCiphertext);
      outcome := Pass;
    }
  }
}
