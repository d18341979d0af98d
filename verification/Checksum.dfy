/** The checksum of an image file: a one's-complement sum of words, with the header's own checksum
    taken out again by end-around borrow. (Microsoft PE Format, CheckSum field.) */
module Checksum {

  import opened Bytes

  type word = w: nat | w < 0x1_0000
  type dword = d: nat | d < 0x1_0000_0000

  function LoWord(d: nat): word {
    d % WORD
  }

  function HiWord(d: nat): word {
    d / WORD % WORD
  }

  /** The sum of the first n words. */
  function Total(words: seq<word>, n: nat): nat
    requires n <= |words|
  {
    if n == 0 then 0 else Total(words, n - 1) + words[n - 1]
  }

  /** The one's-complement representative of n: 0 for 0 only, and otherwise in [1, 0xFFFF]. */
  function Canonical(n: nat): (c: word)
    ensures c == 0 <==> n == 0
    ensures c % 0xFFFF == n % 0xFFFF
  {
    if n == 0 then 0 else (n - 1) % 0xFFFF + 1
  }

  /** Canonical(n) is the only representative of n. */
  lemma CanonicalIs(n: nat, c: word, q: int)
    requires n > 0 && c > 0 && n == c + 0xFFFF * q
    ensures Canonical(n) == c
  {
  }

  function Folded(s: dword): dword {
    if HiWord(s) != 0 then LoWord(s) + HiWord(s) else s
  }

  lemma FoldedIs(s: dword)
    requires s < 0x1FFFF
    ensures Folded(s) == if s < WORD then s else s - 0xFFFF
  {
  }

  /** Adding a word and folding the carry keeps the representative. */
  lemma CanonicalAdds(n: nat, x: word)
    ensures Folded(Canonical(n) + x) == Canonical(n + x)
  {
    var c := Canonical(n);
    FoldedIs(c + x);
    if n == 0 {
      if x != 0 {
        CanonicalIs(x, x, 0);
      }
    } else {
      var q := (n - 1) / 0xFFFF;
      if c + x < WORD {
        CanonicalIs(n + x, c + x, q);
      } else {
        CanonicalIs(n + x, c + x - 0xFFFF, q + 1);
      }
    }
  }

  method CalcCheckSum(startValue: word, words: seq<word>) returns (sum: word)
    ensures sum == Canonical(startValue + Total(words, |words|))
  {
    var s: dword := startValue;
    CanonicalStart(startValue);
    var i := 0;
    while i < |words|
      invariant i <= |words| && s == Canonical(startValue + Total(words, i))
    {
      CanonicalAdds(startValue + Total(words, i), words[i]);
      s := AddWord(s, words[i]);
      i := i + 1;
    }
    FoldedWord(s);
    sum := (LoWord(s) + HiWord(s)) % WORD;
  }

  /** One step of the loop: add a word, and fold the carry in. */
  method AddWord(sum: dword, w: word) returns (s: dword)
    requires sum < WORD
    ensures s == Folded(sum + w)
  {
    s := sum + w;
    if HiWord(s) != 0 {
      s := LoWord(s) + HiWord(s);
    }
  }

  lemma CanonicalStart(w: word)
    ensures Canonical(w) == w
  {
  }

  /** Folding leaves a word as it is. */
  lemma FoldedWord(w: word)
    ensures (LoWord(w) + HiWord(w)) % WORD == w
  {
  }

  /** One subtraction of a header half: end-around borrow. */
  function Less(sum: word, half: word): word {
    if LoWord(sum) >= half then sum - half else (LoWord(sum) - half) % WORD - 1
  }

  /** The header's halves taken out of the sum. */
  function WithoutHeader(sum: word, header: dword): word {
    Less(Less(sum, LoWord(header)), HiWord(header))
  }

  lemma LessIs(sum: word, half: word)
    ensures Less(sum, half) == if sum >= half then sum - half else sum - half + 0xFFFF
  {
  }

  /** Taking two words out of a sum, of which one is not zero, leaves the rest. */
  lemma TakenOut(rest: nat, lo: word, hi: word)
    requires lo != 0 || hi != 0
    ensures Less(Less(Canonical(rest + lo + hi), lo), hi) == rest % 0xFFFF
  {
    var r, a := rest % 0xFFFF, rest / 0xFFFF;
    var n: nat := r + lo + hi;
    var t := (n - 1) / 0xFFFF;
    assert t == 0 || t == 1 || t == 2;
    CanonicalIs(rest + lo + hi, n - 0xFFFF * t, a + t);
    LessIs(n - 0xFFFF * t, lo);
    LessIs(Less(n - 0xFFFF * t, lo), hi);
  }

  /** Taking the header out leaves the sum of the rest modulo 0xFFFF, for every rest. */
  lemma HeaderTakenOut(rest: nat, header: dword)
    ensures WithoutHeader(Canonical(rest + LoWord(header) + HiWord(header)), header)
            == if header != 0 then rest % 0xFFFF else Canonical(rest)
  {
    if header != 0 {
      TakenOut(rest, LoWord(header), HiWord(header));
    } else {
      LessIs(Canonical(rest), 0);
    }
  }

  /** What is compared: the field, and the sum without it plus the length. */
  predicate Accepts(words: seq<word>, bufferLength: dword, checkSum: dword) {
    checkSum == (WithoutHeader(Canonical(Total(words, |words|)), checkSum) + bufferLength) % DWORD
  }

  method CheckSumBufferedFile(words: seq<word>, bufferLength: dword, checkSum: dword) returns (accepted: bool)
    requires |words| == (bufferLength + 1) % DWORD / 2
    ensures accepted <==> Accepts(words, bufferLength, checkSum)
  {
    var calcSum: dword := CalcCheckSum(0, words);
    calcSum := Less(calcSum, LoWord(checkSum));
    calcSum := Less(calcSum, HiWord(checkSum));
    calcSum := (calcSum + bufferLength) % DWORD;
    accepted := checkSum == calcSum;
  }

  /** The file's words with its checksum field, two words from k on, set to a value. */
  function Stamped(words: seq<word>, k: nat, checkSum: dword): seq<word>
    requires k + 1 < |words|
  {
    words[k := LoWord(checkSum)][k + 1 := HiWord(checkSum)]
  }

  /** What the words from i on sum to without the two of the checksum field. */
  function Rest(words: seq<word>, k: nat, i: nat): nat
    requires i <= |words|
    decreases |words| - i
  {
    if i == |words| then 0 else (if i == k || i == k + 1 then 0 else words[i] as nat) + Rest(words, k, i + 1)
  }

  /** The loop's sum is that of the other words and the field's halves. */
  lemma {:induction false} StampedRest(words: seq<word>, k: nat, checkSum: dword, i: nat)
    requires k + 1 < |words| && i <= |words|
    ensures Total(Stamped(words, k, checkSum), |words|) ==
              Total(Stamped(words, k, checkSum), i) + Rest(words, k, i)
              + (if i <= k then LoWord(checkSum) as nat else 0) + (if i <= k + 1 then HiWord(checkSum) as nat else 0)
    decreases |words| - i
  {
    if i < |words| {
      StampedRest(words, k, checkSum, i + 1);
    }
  }

  /** A file whose non-zero checksum field is part of its words is accepted if and only if the field holds the sum of
      the other words modulo 0xFFFF plus the length, whatever the other words sum to. */
  lemma AcceptedIffProper(words: seq<word>, k: nat, bufferLength: dword, checkSum: dword)
    requires k + 1 < |words| && checkSum != 0
    ensures var w := Stamped(words, k, checkSum); w[k] as nat + 0x1_0000 * (w[k + 1] as nat) == checkSum
    ensures Accepts(Stamped(words, k, checkSum), bufferLength, checkSum)
            <==> checkSum == (Rest(words, k, 0) % 0xFFFF + bufferLength) % 0x1_0000_0000
  {
    StampedRest(words, k, checkSum, 0);
    HeaderTakenOut(Rest(words, k, 0), checkSum);
  }

  /** With a zero field, which the caller accepts without looking, the two differ exactly when the words
      sum to a positive multiple of 0xFFFF. */
  lemma ZeroFieldDiffers(words: seq<word>, k: nat)
    requires k + 1 < |words|
    ensures var w, rest := Stamped(words, k, 0), Rest(words, k, 0);
            WithoutHeader(Canonical(Total(w, |w|)), 0) != rest % 0xFFFF <==> rest > 0 && rest % 0xFFFF == 0
  {
    StampedRest(words, k, 0, 0);
    HeaderTakenOut(Rest(words, k, 0), 0);
  }
}
