/**
 * The encryptor of src/cypher.js: the word-count check, the plaintext made of the first 13
 * words, the choice of the IV that is used and of the IV that is reported, and the envelope.
 * AES-256-GCM is the parameter `gcm`, about which nothing is assumed; the 12 random bytes
 * drawn for the default IV are the parameter `defaultIv`.
 */
module Encryptor {
  import opened Results
  import opened Binary
  import opened JsStrings
  import opened Hex
  import MnemonicCodec

  /** Words the mnemonic must split into. */
  const RequiredWords: nat := 14
  /** Leading words that are encrypted; the last word never is. */
  const EncryptedWords: nat := 13
  /** Length of the default IV, in bytes. */
  const DefaultIvBytes: nat := 12

  /** The `iv` argument: `null` (also the default for a missing one), a string or a Buffer. */
  datatype IvArg = NoIv | IvText(text: string) | IvBuffer(bytes: seq<Byte>)

  /** JavaScript truthiness: a Buffer always, a string when non-empty, `null` never. */
  predicate IsTruthy(iv: IvArg) {
    iv.IvBuffer? || (iv.IvText? && iv.text != "")
  }

  /** The IV value handed to the cipher: bytes, or a string for the primitive to convert. */
  datatype IvInput = IvOfBytes(bytes: seq<Byte>) | IvOfText(text: string)

  /**
   * One AES-256-GCM encryption as the cipher object performs it: the hex output of `update`,
   * the hex output of `final` and the hex tag of `getAuthTag`; or `Refused` when the primitive
   * throws (for instance on a key that does not decode to 32 bytes, which is left to it).
   */
  datatype GcmOutcome = Encrypted(update: string, final: string, tag: string) | Refused

  /** AES-256-GCM over (hex key, IV, UTF-8 plaintext), left uninterpreted. */
  type Gcm = (string, IvInput, string) -> GcmOutcome

  /** The object `cypher` returns: exactly these three fields. */
  datatype Envelope = Envelope(cyphertext: string, authTag: string, iv: string)

  datatype CypherError =
    | WrongWordCount              // "Exactly 14 words are required", with no count
    | CipherRefused               // thrown by the AES-GCM primitive

  /**
   * `mnemonic.split(' ').slice(0, 13).join(' ')`: a prefix of the mnemonic, all of it when it
   * has at most 13 pieces.
   */
  function FirstWords(m: string): (r: string)
    ensures r <= m
    ensures |Split(m, ' ')| <= EncryptedWords ==> r == m
  {
    var words := Split(m, ' ');
    JoinOfSplit(m, ' ');
    if |words| <= EncryptedWords then
      assert words[..|words|] == words;
      Join(words, " ")
    else
      JoinAt(words, EncryptedWords, " ");
      Join(words[..EncryptedWords], " ")
  }

  /** `iv || defaultIV`: the caller's IV when truthy, otherwise the random one. */
  function UsedIv(iv: IvArg, defaultIv: seq<Byte>): IvInput {
    if IsTruthy(iv) then
      match iv
      case IvText(text) => IvOfText(text)
      case IvBuffer(bytes) => IvOfBytes(bytes)
    else IvOfBytes(defaultIv)
  }

  /**
   * The `iv` field: for `iv == null` the random IV in hex, otherwise `iv.toString('hex')`,
   * which gives a string back unchanged and a Buffer in hex.
   */
  function ReportedIv(iv: IvArg, defaultIv: seq<Byte>): string {
    match iv
    case NoIv => ToHex(defaultIv)
    case IvText(text) => text
    case IvBuffer(bytes) => ToHex(bytes)
  }

  /**
   * `cypher(mnemonic, key, iv)`: fails unless the mnemonic splits on single spaces into exactly
   * 14 pieces; otherwise encrypts the first 13 under `iv || defaultIV` and returns the
   * ciphertext (`update` then `final`), the tag and the reported IV.
   */
  function Cypher(mnemonic: string, key: string, iv: IvArg, defaultIv: seq<Byte>, gcm: Gcm)
    : (r: Result<Envelope, CypherError>)
    requires |defaultIv| == DefaultIvBytes
    ensures r.Err? && r.error.WrongWordCount? <==> |Split(mnemonic, ' ')| != RequiredWords
    ensures r.Err? && r.error.CipherRefused? <==>
      |Split(mnemonic, ' ')| == RequiredWords
      && gcm(key, UsedIv(iv, defaultIv), FirstWords(mnemonic)).Refused?
  {
    var wordArray := Split(mnemonic, ' ');
    if |wordArray| != RequiredWords then Err(WrongWordCount)
    else
      match gcm(key, UsedIv(iv, defaultIv), FirstWords(mnemonic))
      case Refused => Err(CipherRefused)
      case Encrypted(update, final, tag) =>
        Ok(Envelope(update + final, tag, ReportedIv(iv, defaultIv)))
  }

  /**
   * The piece count is one more than the number of spaces: empty pieces count too. A corollary
   * of the contract of `Split`, kept to state the word-count rule in the encryptor's terms.
   */
  lemma WordCountIsSpacesPlusOne(mnemonic: string)
    ensures |Split(mnemonic, ' ')| == Count(mnemonic, ' ') + 1
    ensures |Split(mnemonic, ' ')| == RequiredWords <==> Count(mnemonic, ' ') == 13
  {
  }

  /**
   * For an accepted mnemonic the plaintext is everything before its 13th space: the mnemonic
   * is the plaintext, one space and the 14th word, and the plaintext holds 12 spaces.
   */
  lemma {:induction false} PlaintextOmitsLastWord(mnemonic: string)
    requires |Split(mnemonic, ' ')| == RequiredWords
    ensures mnemonic == FirstWords(mnemonic) + " " + Split(mnemonic, ' ')[EncryptedWords]
    ensures Count(FirstWords(mnemonic), ' ') == EncryptedWords - 1
    ensures |FirstWords(mnemonic)| < |mnemonic| && mnemonic[|FirstWords(mnemonic)|] == ' '
  {
    var words := Split(mnemonic, ' ');
    JoinOfSplit(mnemonic, ' ');
    JoinAt(words, EncryptedWords, " ");
    assert words[EncryptedWords..] == [words[EncryptedWords]];
    var front := words[..EncryptedWords];
    SplitOfJoin(front, ' ');
  }

  /**
   * With no IV argument the envelope reports, in hex, the random IV that encrypted the
   * plaintext: 24 characters that decode to exactly those 12 bytes.
   */
  lemma NullIvIsReported(mnemonic: string, key: string, defaultIv: seq<Byte>, gcm: Gcm)
    requires |defaultIv| == DefaultIvBytes
    requires Cypher(mnemonic, key, NoIv, defaultIv, gcm).Ok?
    ensures var out := gcm(key, IvOfBytes(defaultIv), FirstWords(mnemonic));
      var env := Cypher(mnemonic, key, NoIv, defaultIv, gcm).value;
      out.Encrypted? && env.cyphertext == out.update + out.final && env.authTag == out.tag
    ensures |Cypher(mnemonic, key, NoIv, defaultIv, gcm).value.iv| == 2 * DefaultIvBytes
    ensures HexDecode(Cypher(mnemonic, key, NoIv, defaultIv, gcm).value.iv) == Some(defaultIv)
  {
    HexRoundTrip(defaultIv);
  }

  /** A truthy IV is the one that encrypts, and is reported as given (a Buffer in hex). */
  lemma TruthyIvIsUsedAndReturned(mnemonic: string, key: string, iv: IvArg, defaultIv: seq<Byte>, gcm: Gcm)
    requires |defaultIv| == DefaultIvBytes && IsTruthy(iv)
    requires Cypher(mnemonic, key, iv, defaultIv, gcm).Ok?
    ensures var used := if iv.IvText? then IvOfText(iv.text) else IvOfBytes(iv.bytes);
      var out := gcm(key, used, FirstWords(mnemonic));
      var env := Cypher(mnemonic, key, iv, defaultIv, gcm).value;
      out.Encrypted? && env.cyphertext == out.update + out.final && env.authTag == out.tag
    ensures iv.IvText? ==> Cypher(mnemonic, key, iv, defaultIv, gcm).value.iv == iv.text
    ensures iv.IvBuffer? ==> HexDecode(Cypher(mnemonic, key, iv, defaultIv, gcm).value.iv) == Some(iv.bytes)
  {
    if iv.IvBuffer? {
      HexRoundTrip(iv.bytes);
    }
  }

  /**
   * An empty-string IV is falsy but not null: the random IV encrypts, yet the envelope reports
   * the empty string, so the reported IV is not the one used.
   */
  lemma EmptyIvIsMisreported(mnemonic: string, key: string, defaultIv: seq<Byte>, gcm: Gcm)
    requires |defaultIv| == DefaultIvBytes
    requires Cypher(mnemonic, key, IvText(""), defaultIv, gcm).Ok?
    ensures var out := gcm(key, IvOfBytes(defaultIv), FirstWords(mnemonic));
      var env := Cypher(mnemonic, key, IvText(""), defaultIv, gcm).value;
      out.Encrypted? && env.cyphertext == out.update + out.final && env.authTag == out.tag
    ensures Cypher(mnemonic, key, IvText(""), defaultIv, gcm).value.iv == ""
    ensures Cypher(mnemonic, key, IvText(""), defaultIv, gcm).value.iv != ToHex(defaultIv)
  {
  }

  /**
   * Whatever 154 characters the encoder is given, its mnemonic passes the word-count check,
   * and the word the encryptor leaves out is the encoder's 14th word.
   */
  lemma EncodedMnemonicIsAccepted(e: string, wl: seq<string>, key: string, iv: IvArg, defaultIv: seq<Byte>, gcm: Gcm)
    requires MnemonicCodec.ValidWordlist(wl) && |e| == MnemonicCodec.EntropyBits
    requires |defaultIv| == DefaultIvBytes
    ensures var r := Cypher(MnemonicCodec.MnemonicOf(e, wl), key, iv, defaultIv, gcm);
      r.Ok? || r.error == CipherRefused
    ensures var m := MnemonicCodec.MnemonicOf(e, wl);
      m == FirstWords(m) + " " + Render(MnemonicCodec.Words(e, wl)[EncryptedWords])
  {
    var m := MnemonicCodec.MnemonicOf(e, wl);
    MnemonicCodec.SplitMnemonic(e, wl);
    PlaintextOmitsLastWord(m);
  }
}
