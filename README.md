# vcrpy-encrypt persister, modelled in Dafny

vcrpy-encrypt is a persister for the vcr.py record/replay library. It stores each
cassette (a recording of HTTP interactions) on disk as
`nonce (12 bytes) || AES-GCM ciphertext || tag (16 bytes)` under
`<cassette_path><encoded_suffix>` (default `.enc`). It can also keep a clear-text
mirror at `<cassette_path><clear_text_suffix>`. This project models
`vcrpy_encrypt/persister.py`:

- `generate_key`;
- the configuration attributes of `BaseEncryptedPersister` and `_get_encryption_key`;
- `load_cassette` and `save_cassette`.

It then proves what they guarantee.

Files:

- `wrappers.dfy`: `Option`, `Result` (a value or the exception raised) and
  `Outcome` (Python's `None` return, or an exception).
- `bytes.dfy`: bytes, and the UTF-8 encoding that `str.encode()` performs on text
  made of Unicode scalar values.
- `aead.dfy`: the AES-GCM interface of section 5.1 of RFC 5116, as `AESGCM.encrypt`
  and `AESGCM.decrypt` expose it with no associated data. AES itself is replaced by
  a concrete keyed stand-in with the same interface. The persister relies only on
  three laws proved about it:
  - the ciphertext is 16 bytes longer than the plaintext;
  - decryption undoes encryption;
  - decryption accepts only the encryption of the plaintext it returns.
- `files.dfy`: the operating-system calls the persister makes. It has a `Disk`
  value (regular files and directories), POSIX `os.path.split`, `os.makedirs`,
  `os.path.exists` and `os.path.isfile`. It also has a `FileSystem` class whose
  methods change the files in place: open for writing, write, and read.
- `persister.dfy`: `generate_key`, the configuration, and the functions `Load` and
  `Save`, which state the result and the disk that each operation leaves. It also
  holds the lemmas about them and the `EncryptedPersister` class. That class's
  `LoadCassette` and `SaveCassette` methods perform the source's steps in order on
  a `FileSystem`, and each method is proved to end in the state that `Load` or
  `Save` describes.

Randomness is passed in as parameters:

- `generate_key`'s `secrets.choice` draws become `draw: nat -> CharIndex`. Draw i
  picks the index of key character i.
- `os.urandom(12)` becomes a 12-byte `nonce` argument to `SaveCassette`.

The vcr serializer that the host passes through is a `Serializer` value holding two
functions.

The model follows the order of the code:

- `load_cassette` opens the encoded file before it looks up the key. A missing file
  gives `ValueError("Cassette not found.")` even when no key is configured.
- `save_cassette` serializes, creates the parent directory and writes the
  clear-text mirror before it looks up the key. An unconfigured save therefore
  still leaves those effects behind.

An unconfigured persister therefore performs file I/O before it raises. Errors
are kept as the code raises them: `ValueError` for a bad bit length, `InvalidTag`
from decryption, and vcr's own exception from deserialization.

## Model

| member | source | states |
|---|---|---|
| `Persister.GenerateKey` | vcrpy_encrypt/persister.py:11-18 | raises `ValueError("Invalid bit_length: ...")` exactly when the bit length is not 128, 192 or 256; otherwise returns exactly bit_length/8 bytes, byte i being the character picked by draw i, and every byte a printable ASCII code |
| `Persister.DefaultKeyHas16Bytes` | vcrpy_encrypt/persister.py:11 | `generate_key()` with the default bit length of 128 succeeds and returns 16 bytes |
| `Persister.AvailableCharsArePrintableAscii` | vcrpy_encrypt/persister.py:17 | the alphabet `ascii_uppercase + digits + ascii_lowercase + punctuation` has 94 characters, each one printable non-space ASCII, and every printable non-space ASCII character occurs in it |
| `Persister.StringConstantCodes` | vcrpy_encrypt/persister.py:17 | the code of every character of the four `string` constants, by position (A-Z, 0-9, a-z, and the four punctuation ranges) |
| `Bytes.EncodeUtf8` | vcrpy_encrypt/persister.py:79 | UTF-8 encoding of a text yields between one and four bytes per character |
| `Bytes.EncodeUtf8KeepsLengthIffAscii` | vcrpy_encrypt/persister.py:18 | encoding keeps the length if and only if the text is ASCII, and then byte i is the code of character i (why a generated key has bit_length/8 bytes) |
| `Persister.GetEncryptionKey` | vcrpy_encrypt/persister.py:35-41 | raises `NotConfiguredException` exactly when the key is `None`, otherwise returns the configured key unchanged |
| `Persister.SuffixedPathsDiffer` | vcrpy_encrypt/persister.py:46-55 | the encoded and clear-text names of one cassette differ whenever the two suffixes differ |
| `Persister.SplitNonce` | vcrpy_encrypt/persister.py:47 | the two reads give the first min(12, length) bytes and the rest, and together they are the whole file |
| `Persister.SplitNonceOfLayout` | vcrpy_encrypt/persister.py:81-82 | splitting `nonce + tagged_ciphertext`, as save writes it, gives back exactly that nonce and that tagged ciphertext |
| `Aead.Encrypt` | vcrpy_encrypt/persister.py:77-79 | the tagged ciphertext is the plaintext's length plus the 16-byte tag |
| `Aead.Decrypt` | vcrpy_encrypt/persister.py:53 | an accepted input is 16 bytes longer than the plaintext returned |
| `Aead.DecryptEncrypt` | vcrpy_encrypt/persister.py:79 | decrypting under the same key and nonce returns the plaintext that was encrypted |
| `Aead.DecryptAcceptsOnlyEncryptions` | vcrpy_encrypt/persister.py:53 | whatever decryption accepts is exactly the encryption, under that key and nonce, of the plaintext it returns |
| `Files.DirName` | vcrpy_encrypt/persister.py:66 | the head of `os.path.split` is a prefix of the path, and is empty exactly when the path has no '/' |
| `Files.MadeDirs` | vcrpy_encrypt/persister.py:67-68 | `os.makedirs(d)` changes no file, keeps every directory, and leaves `d` existing |
| `Files.WriteFile` | vcrpy_encrypt/persister.py:81-82 | a completed write leaves the name holding exactly the data written, with every other file and every directory unchanged |
| `Files.FileSystem.MakeDirs` | vcrpy_encrypt/persister.py:68 | the directories become those of `MadeDirs` on the old state |
| `Files.FileSystem.Create` | vcrpy_encrypt/persister.py:81 | opening for writing creates the file or truncates it to empty, and nothing else changes |
| `Files.FileSystem.Write` | vcrpy_encrypt/persister.py:82 | each `f.write` appends to the open file, and nothing else changes |
| `Files.FileSystem.ReadAll` | vcrpy_encrypt/persister.py:46-49 | opening for reading succeeds exactly when the name is a regular file, and then yields its content |
| `Persister.SaveWritesNonceThenTaggedCiphertext` | vcrpy_encrypt/persister.py:76-82 | with a key configured, save succeeds and the encoded file holds `nonce + Encrypt(key, nonce, utf8(data))`, that is 12 + len(plaintext) + 16 bytes |
| `Persister.SaveWithoutKeyRaisesAfterEarlierSteps` | vcrpy_encrypt/persister.py:65-74 | with no key, save raises `NotConfiguredException`, after the parent directory exists and, when enabled, after the clear-text mirror holds the serialized text |
| `Persister.BasePersisterIsNotConfigured` | vcrpy_encrypt/persister.py:30-41 | the base persister, whose key is `None`, finds no cassette on a first load, and its save raises `NotConfiguredException` without writing an encoded file |
| `Persister.SaveWithoutKeyKeepsEncodedFile` | vcrpy_encrypt/persister.py:74-82 | with no key, the encoded file is neither created nor changed |
| `Persister.SaveWritesClearTextIffEnabled` | vcrpy_encrypt/persister.py:70-72 | when the option is on, save (re)writes the clear-text file with the serialized text; when it is off, save leaves that name as it was and creates no clear-text file |
| `Persister.SaveChangesOnlyItsFiles` | vcrpy_encrypt/persister.py:65-82 | save changes no file but the mirror and the encoded file (only the encoded one when the mirror is off), and adds only the parent directory and its ancestors |
| `Persister.LoadMissingCassette` | vcrpy_encrypt/persister.py:45-49 | a missing encoded file raises `ValueError("Cassette not found.")` and changes nothing, whatever the configuration, key or no key |
| `Persister.LoadWithoutKey` | vcrpy_encrypt/persister.py:45-51 | an existing encoded file with no key configured raises `NotConfiguredException` and changes nothing |
| `Persister.LoadRejectsShortFile` | vcrpy_encrypt/persister.py:47-53 | an encoded file shorter than 28 bytes raises `InvalidTag` and changes nothing |
| `Persister.LoadDecryptsOnlyAuthenticFiles` | vcrpy_encrypt/persister.py:47-60 | whenever load reaches deserialization, the file was a 12-byte nonce followed by the encryption of the content that load deserializes |
| `Persister.LoadNeverOverwritesClearText` | vcrpy_encrypt/persister.py:55-58 | load writes no file but the clear-text mirror, and only when the option is on and that file is absent; an existing mirror is never overwritten, and no directory is created |
| `Persister.LoadMirrorsDecryptedContent` | vcrpy_encrypt/persister.py:53-58 | when load writes the mirror, the option is on, a key is configured, and the mirror holds the decrypted content of the encoded file |
| `Persister.SaveThenLoad` | vcrpy_encrypt/persister.py:43-82 | loading what save wrote, with the same configuration and path, returns `deserialize(serialize(cassette))` and writes nothing |
| `Persister.SaveThenLoadRecoversCassette` | vcrpy_encrypt/persister.py:60-65 | with a serializer that reads back what it writes, save followed by load returns the saved cassette |
| `Persister.ReplayWritesDelayedClearText` | vcrpy_encrypt/persister.py:55-58 | a cassette saved with the mirror off and replayed with it on gets its clear-text file on replay, holding the bytes a save with the mirror on would have written |
| `Persister.SuffixesOnlyRenameFiles` | vcrpy_encrypt/persister.py:32-33 | two configurations differing only in suffixes save the same outcome and the same encoded bytes under their own names, and load the same result from the same bytes |
| `Persister.EncryptedPersister.constructor` | vcrpy_encrypt/persister.py:30-33 | a persister keeps the configuration it is defined with |
| `Persister.EncryptedPersister.LoadCassette` | vcrpy_encrypt/persister.py:43-61 | performing open and read to the end, a split at min(12, length) as `f.read(12)`/`f.read(-1)` would make, key lookup, decrypt, conditional mirror write and deserialize, in that order, yields the result and disk that `Load` describes |
| `Persister.EncryptedPersister.SaveCassette` | vcrpy_encrypt/persister.py:63-82 | performing serialize, makedirs, mirror write, key lookup, encrypt and the two writes, in that order, yields the outcome and disk that `Save` describes |

## Left out

- AES-GCM itself (NIST SP 800-38D) is replaced by a keyed stand-in with the same
  interface. Confidentiality cannot be stated here. Neither can the real tag's
  resistance to forgery, which is why a tampered file is rejected with
  overwhelming probability. What the model proves is the deterministic half:
  load never accepts anything but a genuine encryption.
- `AESGCM(key)` raises `ValueError` when the key is not 16, 24 or 32 bytes long. The
  model has no such check, so any configured key is accepted.
- `AESGCM.decrypt` raises `ValueError` for a nonce shorter than 8 bytes, which
  happens when the encoded file is shorter than 8 bytes. The model raises
  `InvalidTag` for such files, as it does for every file shorter than 28 bytes.
- `secrets.choice` and `os.urandom` are parameters. Uniform choice and nonce
  uniqueness are probabilistic, so they are not stated.
- vcr's `serialize` and `deserialize`, and the serializer module behind them, are the
  two functions of the `Serializer` argument. Any exception from `deserialize` is
  `DeserializationError`. Only a serializer that reads back what it writes is
  assumed, and only in `SaveThenLoadRecoversCassette`.
- The clear-text write of save opens the file in text mode. Its bytes are modelled
  as the UTF-8 encoding of the text, which holds when the locale's encoding is
  UTF-8.
- Operating-system failures are not modelled. Writes and `os.makedirs` always
  succeed, including over a name that is already a file, and no write is partial.
  Permission errors are not modelled either. The only `OSError` on opening for
  reading is a name that is not a regular file.
- Paths are POSIX and are not normalised: `Ancestors("a//b")` includes `"a/"`.
  Windows path rules are not modelled.
- Python strings can hold lone surrogates; Dafny characters cannot. For such text,
  `data.encode()` and the text-mode mirror write raise `UnicodeEncodeError` (the
  mirror already created or truncated). The model's save never fails there.
- `int(bit_length / 8)` is a float division in the source. The model uses integer
  division, which agrees for the three accepted lengths.
- Concurrent saves to one path are not modelled.
- `Persister.SaveWritesClearTextIffEnabled`: assumes the two suffixes differ, in
  both halves (mirror on and mirror off). When they are equal and a key is
  configured, the encoded write that follows replaces the mirror, as
  `SaveWritesNonceThenTaggedCiphertext` describes. When they are equal and no key
  is configured, the shared name keeps the serialized text, as
  `SaveWithoutKeyRaisesAfterEarlierSteps` describes.
- `Persister.SaveWithoutKeyKeepsEncodedFile`: assumes the mirror is off or its suffix
  differs from the encoded one. Otherwise the mirror write replaces the encoded
  file before the key lookup raises.
- The build, virtual-environment and CI tasks (`tasks/`, `tasks.py`, `noxfile.py`)
  and the test fixtures and tests (`tests/`) are not part of this model. They drive
  real HTTP and shell commands.
