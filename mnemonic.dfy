/**
 * Entropy generation and validation, and the entropy-to-words encoder (src/mnemonic.js).
 * The random bytes and the wordlist are parameters.
 */
module MnemonicCodec {
  import opened Results
  import opened Binary
  import opened JsStrings

  /** Entropy length in bits: the default of generateEntropy and the minimum of validateEntropy. */
  const EntropyBits: nat := 154
  const WordlistSize: nat := 2048
  /** Words in a mnemonic built from EntropyBits of entropy. */
  const MnemonicWords: nat := 14

  /** The word catalogue as the encoder expects it: 2048 non-empty words without spaces. */
  predicate ValidWordlist(wl: seq<string>) {
    |wl| == WordlistSize && forall i :: 0 <= i < |wl| ==> wl[i] != "" && ' ' !in wl[i]
  }

  // ---- generateEntropy ----

  /** `byte.toString(2).padStart(8, '0')`: exactly the eight digits of the byte, high bit first. */
  function ByteToBinary(b: Byte): (r: string)
    ensures |r| == 8 && IsBinary(r) && BinValue(r) == b
  {
    Pow2Values();
    ToStringRadix2Length(b, 8);
    PadStartWithZeros(ToStringRadix2(b), 8);
    PadStart(ToStringRadix2(b), 8, '0')
  }

  /** The big-endian value of a byte sequence. */
  function BigEndian(bytes: seq<Byte>): nat {
    if |bytes| == 0 then 0 else 256 * BigEndian(bytes[..|bytes| - 1]) + bytes[|bytes| - 1]
  }

  /**
   * `Array.from(bytes).map(ByteToBinary).join('')`: the bytes' binary renderings one after
   * the other, which is the big-endian bit string of the whole sequence.
   */
  function BitString(bytes: seq<Byte>): (r: string)
    ensures |r| == 8 * |bytes| && IsBinary(r) && BinValue(r) == BigEndian(bytes)
  {
    if |bytes| == 0 then ""
    else
      var front := BitString(bytes[..|bytes| - 1]);
      var last := ByteToBinary(bytes[|bytes| - 1]);
      Pow2Values();
      BinaryAppend(front, last);
      BinValueAppend(front, last);
      front + last
  }

  /** Character k of the bit string is digit k % 8 of byte k / 8. */
  lemma {:induction false} BitStringAt(bytes: seq<Byte>, k: nat)
    requires k < 8 * |bytes|
    ensures BitString(bytes)[k] == ByteToBinary(bytes[k / 8])[k % 8]
  {
    var n := |bytes| - 1;
    var front := BitString(bytes[..n]);
    assert BitString(bytes) == front + ByteToBinary(bytes[n]);
    if k < 8 * n {
      BitStringAt(bytes[..n], k);
      assert bytes[..n][k / 8] == bytes[k / 8];
    } else {
      assert k / 8 == n && k % 8 == k - 8 * n;
    }
  }

  /** `Math.ceil(bits / 8)`: the fewest bytes that hold `bits` bits. */
  function ByteCount(bits: nat): (n: nat)
    ensures 8 * n >= bits && 8 * n < bits + 8
  {
    (bits + 7) / 8
  }

  /**
   * `generateEntropy(bits)` with the `ceil(bits / 8)` random bytes passed in: exactly `bits`
   * binary digits, character k being digit k % 8 (high bit first) of byte k / 8, i.e. the
   * big-endian bit string of the bytes cut to its first `bits` bits.
   */
  function GenerateEntropy(bits: nat, random: seq<Byte>): (r: string)
    requires |random| == ByteCount(bits)
    ensures |r| == bits && IsBinary(r)
    ensures forall k :: 0 <= k < bits ==> r[k] == ByteToBinary(random[k / 8])[k % 8]
  {
    var all := BitString(random);
    forall k | 0 <= k < bits
      ensures all[k] == ByteToBinary(random[k / 8])[k % 8]
    {
      BitStringAt(random, k);
    }
    all[..bits]
  }

  /**
   * The entropy's value is the bytes' big-endian value with the bits cut off at the end
   * shifted out; when `bits` is a whole number of bytes, nothing is cut.
   */
  lemma GenerateEntropyValue(bits: nat, random: seq<Byte>)
    requires |random| == ByteCount(bits)
    ensures BinValue(GenerateEntropy(bits, random)) == BigEndian(random) / Pow2(8 * |random| - bits)
    ensures bits % 8 == 0 ==> BinValue(GenerateEntropy(bits, random)) == BigEndian(random)
  {
    var all := BitString(random);
    assert GenerateEntropy(bits, random) == all[..bits];
    PrefixValue(all, bits);
    if bits % 8 == 0 {
      WholeBytes(bits);
      assert all[..bits] == all;
    }
  }

  lemma WholeBytes(bits: nat)
    requires bits % 8 == 0
    ensures 8 * ByteCount(bits) == bits
  {
  }

  // ---- validateEntropy ----

  datatype EntropyError = EntropyTooShort(found: nat)

  /**
   * `validateEntropy(e)`: shorter than 154 characters is an error reporting the length;
   * otherwise the first 154 characters. Only the length is checked, never the characters.
   */
  function ValidateEntropy(e: string): (r: Result<string, EntropyError>)
    ensures r.Err? <==> |e| < EntropyBits
    ensures r.Err? ==> r.error == EntropyTooShort(|e|)
    ensures r.Ok? ==> |r.value| == EntropyBits && r.value <= e
  {
    if |e| < EntropyBits then Err(EntropyTooShort(|e|)) else Ok(e[..EntropyBits])
  }

  /** Validating validated entropy changes nothing. */
  lemma ValidateEntropyIdempotent(e: string)
    requires ValidateEntropy(e).Ok?
    ensures ValidateEntropy(ValidateEntropy(e).value) == ValidateEntropy(e)
  {
    assert e[..EntropyBits][..EntropyBits] == e[..EntropyBits];
  }

  // ---- entropyToMnemonic ----

  /** Number of `slice(i, i + 11)` steps the encoder takes: `ceil(n / 11)`. */
  function GroupCount(n: nat): (c: nat)
    ensures 11 * c >= n && 11 * c < n + 11
  {
    (n + 10) / 11
  }

  /** `wordlist[index]`: a word for an index inside the list, `undefined` otherwise. */
  function WordAt(wl: seq<string>, index: JsNumber): (w: Option<string>)
    ensures w.Some? <==> index.Num? && 0 <= index.value < |wl|
    ensures w.Some? ==> w.value == wl[index.value]
  {
    match index
    case NaN => None
    case Num(v) => if 0 <= v < |wl| then Some(wl[v]) else None
  }

  /** The `k`-th slot the encoder pushes: the word indexed by characters 11k .. 11k+10. */
  function GroupWord(e: string, wl: seq<string>, k: nat): Option<string> {
    WordAt(wl, ParseIntBase2(Slice(e, 11 * k, 11 * k + 11)))
  }

  lemma GroupWordFrom(e: string, wl: seq<string>, i: nat, k: nat)
    requires i == 11 * k
    ensures GroupWord(e, wl, k) == WordAt(wl, ParseIntBase2(Slice(e, i, i + 11)))
  {
  }

  /** The encoder's `words` array after its first `n` steps. */
  function WordsUpTo(e: string, wl: seq<string>, n: nat): (ws: seq<Option<string>>)
    ensures |ws| == n
    ensures forall k :: 0 <= k < n ==> ws[k] == GroupWord(e, wl, k)
  {
    if n == 0 then [] else WordsUpTo(e, wl, n - 1) + [GroupWord(e, wl, n - 1)]
  }

  /** The encoder's `words` array once the loop is done: one slot per group. */
  function Words(e: string, wl: seq<string>): (ws: seq<Option<string>>)
    ensures |ws| == GroupCount(|e|)
  {
    WordsUpTo(e, wl, GroupCount(|e|))
  }

  /** What `entropyToMnemonic(e)` returns. */
  function MnemonicOf(e: string, wl: seq<string>): string {
    JoinArray(Words(e, wl), " ")
  }

  /** `entropyToMnemonic(e)`: one word per 11-character group, joined with single spaces. */
  method EntropyToMnemonic(e: string, wl: seq<string>) returns (m: string)
    ensures m == MnemonicOf(e, wl)
  {
    var words: seq<Option<string>> := [];
    var i := 0;
    while i < |e|
      invariant i == 11 * |words| && i <= |e| + 10
      invariant words == WordsUpTo(e, wl, |words|)
    {
      var index := ParseIntBase2(Slice(e, i, i + 11));
      GroupWordFrom(e, wl, i, |words|);
      words := words + [WordAt(wl, index)];
      i := i + 11;
    }
    assert |words| == GroupCount(|e|);
    m := JoinArray(words, " ");
  }

  /**
   * With a valid wordlist, every slot renders without a space, so splitting the mnemonic on
   * spaces gives back the slots one for one, whatever characters the entropy holds.
   */
  lemma SplitMnemonic(e: string, wl: seq<string>)
    requires ValidWordlist(wl) && |e| > 0
    ensures Split(MnemonicOf(e, wl), ' ') == RenderAll(Words(e, wl))
    ensures |Split(MnemonicOf(e, wl), ' ')| == GroupCount(|e|)
  {
    var ws := RenderAll(Words(e, wl));
    forall k | 0 <= k < |ws|
      ensures ' ' !in ws[k]
    {
      assert ws[k] == Render(GroupWord(e, wl, k));
    }
    SplitOfJoin(ws, ' ');
  }

  /** A group of binary entropy is a number below 2048, so its slot holds that word. */
  lemma GroupWordOfBinary(e: string, wl: seq<string>, k: nat)
    requires ValidWordlist(wl) && IsBinary(e) && k < GroupCount(|e|)
    ensures BinValue(Slice(e, 11 * k, 11 * k + 11)) < WordlistSize
    ensures GroupWord(e, wl, k) == Some(wl[BinValue(Slice(e, 11 * k, 11 * k + 11))])
  {
    var g := Slice(e, 11 * k, 11 * k + 11);
    assert 0 < |g| <= 11;
    assert IsBinary(g) by {
      forall i | 0 <= i < |g| ensures IsBit(g[i]) {
        assert g[i] == e[11 * k + i];
      }
    }
    ParseIntOfBinary(g);
    Pow2Monotonic(|g|, 11);
    Pow2Values();
  }

  /**
   * For binary entropy every group is a number below 2048 and the k-th word of the mnemonic
   * is the wordlist entry at the big-endian value of characters 11k .. 11k+10.
   */
  lemma {:induction false} EncodeBinaryEntropy(e: string, wl: seq<string>)
    requires ValidWordlist(wl) && |e| > 0 && IsBinary(e)
    ensures |Split(MnemonicOf(e, wl), ' ')| == GroupCount(|e|)
    ensures forall k :: 0 <= k < GroupCount(|e|) ==>
      BinValue(Slice(e, 11 * k, 11 * k + 11)) < WordlistSize &&
      Split(MnemonicOf(e, wl), ' ')[k] == wl[BinValue(Slice(e, 11 * k, 11 * k + 11))]
  {
    SplitMnemonic(e, wl);
    var ws := Split(MnemonicOf(e, wl), ' ');
    var slots := Words(e, wl);
    forall k | 0 <= k < GroupCount(|e|)
      ensures BinValue(Slice(e, 11 * k, 11 * k + 11)) < WordlistSize
      ensures ws[k] == wl[BinValue(Slice(e, 11 * k, 11 * k + 11))]
    {
      assert ws[k] == Render(slots[k]);
      assert slots[k] == GroupWord(e, wl, k);
      GroupWordOfBinary(e, wl, k);
    }
  }

  /** A mnemonic from 154 binary characters has 14 words, each a non-empty wordlist entry. */
  lemma MnemonicWordsAreListed(e: string, wl: seq<string>)
    requires ValidWordlist(wl) && |e| == EntropyBits && IsBinary(e)
    ensures |Split(MnemonicOf(e, wl), ' ')| == MnemonicWords
    ensures forall w :: w in Split(MnemonicOf(e, wl), ' ') ==> w in wl && w != ""
  {
    EncodeBinaryEntropy(e, wl);
  }

  /** ... so its words are separated by single spaces, with none leading or trailing. */
  lemma MnemonicIsSingleSpaced(e: string, wl: seq<string>)
    requires ValidWordlist(wl) && |e| == EntropyBits && IsBinary(e)
    ensures forall k :: 0 <= k < |Split(MnemonicOf(e, wl), ' ')| ==> Split(MnemonicOf(e, wl), ' ')[k] != ""
    ensures MnemonicOf(e, wl) != ""
    ensures MnemonicOf(e, wl)[0] != ' ' && MnemonicOf(e, wl)[|MnemonicOf(e, wl)| - 1] != ' '
  {
    var m := MnemonicOf(e, wl);
    var ws := Split(m, ' ');
    MnemonicWordsAreListed(e, wl);
    assert forall k :: 0 <= k < |ws| ==> ws[k] in ws;
    JoinOfSplit(m, ' ');
    JoinEnds(ws, ' ');
  }

  // ---- mnemonic ----

  /** The dispatcher's argument: absent (`null`, `undefined`, the default) or a string. */
  datatype EntropyArg = NoEntropy | EntropyText(text: string)

  /** JavaScript truthiness of the argument: a non-empty string. */
  predicate IsTruthy(entropy: EntropyArg) {
    entropy.EntropyText? && entropy.text != ""
  }

  /**
   * `mnemonic(entropy)`: a truthy argument is validated, anything else is replaced by freshly
   * generated entropy (the bytes `random` stand for `randomBytes(20)`); either way the encoder
   * sees exactly 154 characters, so a result always splits into 14 words.
   */
  method Mnemonic(entropy: EntropyArg, random: seq<Byte>, wl: seq<string>)
    returns (r: Result<string, EntropyError>)
    requires |random| == ByteCount(EntropyBits)
    ensures !IsTruthy(entropy) ==> r == Ok(MnemonicOf(GenerateEntropy(EntropyBits, random), wl))
    ensures IsTruthy(entropy) ==> (r.Err? <==> |entropy.text| < EntropyBits)
    ensures IsTruthy(entropy) && r.Err? ==> r.error == EntropyTooShort(|entropy.text|)
    ensures IsTruthy(entropy) && r.Ok? ==> r.value == MnemonicOf(entropy.text[..EntropyBits], wl)
    ensures r.Ok? && ValidWordlist(wl) ==> |Split(r.value, ' ')| == MnemonicWords
    ensures r.Ok? && ValidWordlist(wl) && !IsTruthy(entropy) ==>
      forall w :: w in Split(r.value, ' ') ==> w in wl
  {
    var bits: string;
    if IsTruthy(entropy) {
      var checked := ValidateEntropy(entropy.text);
      if checked.Err? {
        return Err(checked.error);
      }
      bits := checked.value;
    } else {
      bits := GenerateEntropy(EntropyBits, random);
    }
    assert |bits| == EntropyBits;
    var words := EntropyToMnemonic(bits, wl);
    r := Ok(words);
    if ValidWordlist(wl) {
      SplitMnemonic(bits, wl);
      if !IsTruthy(entropy) {
        MnemonicWordsAreListed(bits, wl);
      }
    }
  }
}
