/** Mutation of a generated sequence: random drops and insertions between an untouched preamble and a
    fresh padding, for every stream of random draws. */
module Mutation {
  import opened Words
  import opened Rv32
  import opened Epilogue
  import opened Encodings

  /** An assembled sequence: the bytes of its program and the bounds of the part that may change. */
  datatype Sequence = Sequence(binary: seq<Byte>, mutableStart: nat, mutableEnd: nat) {
    /** The mutable part is inside the binary and consists of whole words. */
    predicate Valid() {
      mutableStart <= mutableEnd <= |binary| && (mutableEnd - mutableStart) % 4 == 0
    }
  }

  /** The values that the random number generator returns, by their position. */
  type Draws = nat -> nat

  // ---------------------------------------------------------------- words and bytes

  function WordsAt(bin: seq<Byte>, start: nat, n: nat): (words: seq<Word>)
    requires start + 4 * n <= |bin|
    ensures |words| == n && forall i | 0 <= i < n :: words[i] == ReadWord(bin, start + 4 * i)
  {
    seq(n, i requires 0 <= i < n => ReadWord(bin, start + 4 * i))
  }

  function MutableWords(s: Sequence): (words: seq<Word>)
    requires s.Valid()
    ensures |words| == (s.mutableEnd - s.mutableStart) / 4
  {
    WordsAt(s.binary, s.mutableStart, (s.mutableEnd - s.mutableStart) / 4)
  }

  function WordBytes(w: Word): (b: seq<Byte>)
    ensures |b| == 4
  {
    [LowByte(w), LowByte(w / 0x100), LowByte(w / 0x1_0000), LowByte(w / 0x100_0000)]
  }

  /** The encodings of the words, one after the other. */
  function Encoded(enc: Word -> seq<Byte>, words: seq<Word>): seq<Byte>
    decreases |words|
  {
    if words == [] then [] else Encoded(enc, words[..|words| - 1]) + enc(words[|words| - 1])
  }

  ghost predicate FourBytes(enc: Word -> seq<Byte>) {
    forall w: Word :: |enc(w)| == 4
  }

  lemma EncodedAppend(enc: Word -> seq<Byte>, words: seq<Word>, w: Word)
    ensures Encoded(enc, words + [w]) == Encoded(enc, words) + enc(w)
  {
    assert (words + [w])[..|words|] == words;
  }

  lemma {:induction false} EncodedLength(enc: Word -> seq<Byte>, words: seq<Word>)
    requires FourBytes(enc)
    ensures |Encoded(enc, words)| == 4 * |words|
    decreases |words|
  {
    if words != [] {
      EncodedLength(enc, words[..|words| - 1]);
    }
  }

  lemma {:induction false} EncodedSlice(enc: Word -> seq<Byte>, words: seq<Word>, i: nat)
    requires FourBytes(enc) && i < |words|
    ensures 4 * i + 4 <= |Encoded(enc, words)| && Encoded(enc, words)[4 * i..4 * i + 4] == enc(words[i])
    decreases |words|
  {
    var front, last := words[..|words| - 1], words[|words| - 1];
    EncodedLength(enc, front);
    if i < |words| - 1 {
      EncodedSlice(enc, front, i);
      SliceOfPrefix(Encoded(enc, front), enc(last), 4 * i, enc(words[i]));
    } else {
      SliceOfSuffix(Encoded(enc, front), enc(last), 4 * i);
    }
  }

  lemma SliceOfPrefix(a: seq<Byte>, b: seq<Byte>, at: nat, c: seq<Byte>)
    requires at + 4 <= |a| && a[at..at + 4] == c
    ensures (a + b)[at..at + 4] == c
  {
  }

  lemma SliceOfSuffix(a: seq<Byte>, b: seq<Byte>, at: nat)
    requires at == |a| && |b| == 4
    ensures (a + b)[at..at + 4] == b
  {
  }

  /** Words as bytes, least significant byte first. */
  function Bytes(words: seq<Word>): (b: seq<Byte>)
    ensures |b| == 4 * |words|
  {
    EncodedLength(WordBytes, words);
    Encoded(WordBytes, words)
  }

  lemma ReadBytes(bin: seq<Byte>, at: nat, w: Word)
    requires at + 4 <= |bin| && bin[at..at + 4] == WordBytes(w)
    ensures ReadWord(bin, at) == w
  {
    var b := bin[at..at + 4];
    assert b[0] == bin[at] && b[1] == bin[at + 1] && b[2] == bin[at + 2] && b[3] == bin[at + 3];
    BytesOfWord(w);
  }

  lemma Inside(pre: seq<Byte>, mid: seq<Byte>, post: seq<Byte>, at: nat)
    requires at + 4 <= |mid|
    ensures (pre + mid + post)[|pre| + at..|pre| + at + 4] == mid[at..at + 4]
  {
  }

  /** Words stored in a binary read back. */
  lemma BytesRead(pre: seq<Byte>, words: seq<Word>, post: seq<Byte>, i: nat, at: nat)
    requires i < |words| && at == |pre| + 4 * i
    ensures at + 4 <= |pre + Bytes(words) + post|
    ensures ReadWord(pre + Bytes(words) + post, at) == words[i]
  {
    var mid := Bytes(words);
    EncodedSlice(WordBytes, words, i);
    ReadInside(pre, mid, post, at, words[i]);
  }

  lemma ReadInside(pre: seq<Byte>, mid: seq<Byte>, post: seq<Byte>, at: nat, w: Word)
    requires |pre| <= at && at - |pre| + 4 <= |mid| && mid[at - |pre|..at - |pre| + 4] == WordBytes(w)
    ensures ReadWord(pre + mid + post, at) == w
  {
    Inside(pre, mid, post, at - |pre|);
    ReadBytes(pre + mid + post, at, w);
  }

  lemma WordsRead(pre: seq<Byte>, words: seq<Word>, post: seq<Byte>)
    ensures WordsAt(pre + Bytes(words) + post, |pre|, |words|) == words
  {
    forall i | 0 <= i < |words|
      ensures WordsAt(pre + Bytes(words) + post, |pre|, |words|)[i] == words[i]
    {
      BytesRead(pre, words, post, i, |pre| + 4 * i);
    }
  }

  // ---------------------------------------------------------------- what the draws decide

  /** The words that survive: word `i` is dropped when its draw falls below five in a hundred. */
  function Kept(words: seq<Word>, draws: Draws): seq<Word>
    decreases |words|
  {
    if words == [] then []
    else
      var last := |words| - 1;
      Kept(words[..last], draws) + (if draws(last) % 100 < 5 then [] else [words[last]])
  }

  /** The words of `inject` from `i` on that are inserted, with draws taken from position `pos` on and
      `size` words there before. Each insertion into a nonempty list uses a second draw. */
  function Chosen(inject: seq<Word>, i: nat, draws: Draws, pos: nat, size: nat): seq<Word>
    requires i <= |inject|
    decreases |inject| - i
  {
    if i == |inject| then []
    else if draws(pos) % 100 < 10 then
      [inject[i]] + Chosen(inject, i + 1, draws, pos + (if size == 0 then 1 else 2), size + 1)
    else Chosen(inject, i + 1, draws, pos + 1, size)
  }

  // ---------------------------------------------------------------- subsequences

  /** `f` places the elements of `a` in `b`, in order. */
  ghost predicate Embeds<T>(a: seq<T>, b: seq<T>, f: seq<nat>) {
    && |f| == |a| && (forall i | 0 <= i < |f| :: f[i] < |b| && b[f[i]] == a[i])
    && forall i, j | 0 <= i < j < |f| :: f[i] < f[j]
  }

  ghost predicate Subsequence<T>(a: seq<T>, b: seq<T>) {
    exists f :: Embeds(a, b, f)
  }

  lemma SubsequenceSelf<T>(a: seq<T>)
    ensures Subsequence(a, a)
  {
    assert Embeds(a, a, seq(|a|, i => i));
  }

  lemma EmbedsGrow<T>(a: seq<T>, b: seq<T>, x: T, f: seq<nat>)
    requires Embeds(a, b, f)
    ensures Embeds(a, b + [x], f) && Embeds(a + [x], b + [x], f + [|b|])
  {
  }

  lemma SubsequenceGrow<T>(a: seq<T>, b: seq<T>, x: T)
    requires Subsequence(a, b)
    ensures Subsequence(a, b + [x]) && Subsequence(a + [x], b + [x])
  {
    var f: seq<nat> :| Embeds(a, b, f);
    EmbedsGrow(a, b, x, f);
  }

  function Insert<T>(b: seq<T>, k: nat, x: T): seq<T>
    requires k <= |b|
  {
    b[..k] + [x] + b[k..]
  }

  lemma SubsequenceInsert<T>(a: seq<T>, b: seq<T>, k: nat, x: T)
    requires Subsequence(a, b) && k <= |b|
    ensures Subsequence(a, Insert(b, k, x))
  {
    var f: seq<nat> :| Embeds(a, b, f);
    var g: seq<nat> := seq(|f|, i requires 0 <= i < |f| => if f[i] < k then f[i] else f[i] + 1);
    assert Embeds(a, Insert(b, k, x), g);
  }

  lemma InsertElements<T>(b: seq<T>, k: nat, x: T)
    requires k <= |b|
    ensures multiset(Insert(b, k, x)) == multiset(b) + multiset{x}
  {
    assert b == b[..k] + b[k..];
  }

  lemma {:induction false} KeptSubsequence(words: seq<Word>, draws: Draws)
    ensures Subsequence(Kept(words, draws), words)
    decreases |words|
  {
    if words == [] {
      SubsequenceSelf(words);
    } else {
      var last := |words| - 1;
      KeptSubsequence(words[..last], draws);
      SubsequenceGrow(Kept(words[..last], draws), words[..last], words[last]);
      assert words == words[..last] + [words[last]];
      assert Kept(words[..last], draws) + [] == Kept(words[..last], draws);
    }
  }

  /** Exactly the words whose draws are not below five in a hundred survive, in order. */
  lemma {:induction false} KeptIsSelection(words: seq<Word>, draws: Draws) returns (f: seq<nat>)
    ensures Embeds(Kept(words, draws), words, f)
    ensures forall i: nat :: i in f <==> i < |words| && draws(i) % 100 >= 5
    decreases |words|
  {
    f := [];
    if words != [] {
      var last := |words| - 1;
      var rest := words[..last];
      var g := KeptIsSelection(rest, draws);
      assert words == rest + [words[last]];
      EmbedsGrow(Kept(rest, draws), rest, words[last], g);
      f := if draws(last) % 100 >= 5 then g + [last] else g;
      assert Kept(words, draws) == if draws(last) % 100 >= 5 then Kept(rest, draws) + [words[last]] else Kept(rest, draws);
      Selected(g, last, draws, f);
    }
  }

  lemma Selected(g: seq<nat>, last: nat, draws: Draws, f: seq<nat>)
    requires forall i: nat :: i in g <==> i < last && draws(i) % 100 >= 5
    requires f == if draws(last) % 100 >= 5 then g + [last] else g
    ensures forall i: nat :: i in f <==> i < last + 1 && draws(i) % 100 >= 5
  {
  }

  // ---------------------------------------------------------------- the loops

  method ReadMutable(s: Sequence) returns (words: seq<Word>)
    requires s.Valid()
    ensures words == MutableWords(s)
  {
    words := [];
    var size := s.mutableEnd - s.mutableStart;
    var i := 0;
    while i < size
      invariant i <= size && i % 4 == 0 && words == WordsAt(s.binary, s.mutableStart, i / 4)
    {
      words := words + [ReadWord(s.binary, s.mutableStart + i)];
      i := i + 4;
    }
  }

  method DropSome(words: seq<Word>, draws: Draws) returns (kept: seq<Word>)
    ensures kept == Kept(words, draws)
  {
    kept := [];
    for i := 0 to |words|
      invariant kept == Kept(words[..i], draws)
    {
      assert words[..i + 1][..i] == words[..i];
      if draws(i) % 100 < 5 {
        continue;
      }
      kept := kept + [words[i]];
    }
    assert words[..|words|] == words;
  }

  /** What inserting at random points keeps. */
  ghost predicate Mixed(kept: seq<Word>, chosen: seq<Word>, mutated: seq<Word>) {
    Subsequence(kept, mutated) && multiset(mutated) == multiset(kept) + multiset(chosen)
  }

  lemma MixedInsert(kept: seq<Word>, chosen: seq<Word>, mutated: seq<Word>, k: nat, w: Word)
    requires Mixed(kept, chosen, mutated) && k <= |mutated|
    ensures Mixed(kept, chosen + [w], Insert(mutated, k, w))
  {
    SubsequenceInsert(kept, mutated, k, w);
    InsertElements(mutated, k, w);
  }

  lemma MixedSize(kept: seq<Word>, chosen: seq<Word>, mutated: seq<Word>)
    requires Mixed(kept, chosen, mutated)
    ensures |mutated| == |kept| + |chosen|
  {
    assert |multiset(mutated)| == |multiset(kept)| + |multiset(chosen)|;
  }

  function Index(draw: nat, size: nat): (k: nat)
    requires size > 0
    ensures k < size
  {
    DivMod(draw, size);
    draw % size
  }

  /** The list after the chances of the words from `i` on, each insertion at its random place. */
  function InsertAll(current: seq<Word>, inject: seq<Word>, i: nat, draws: Draws, pos: nat): seq<Word>
    requires i <= |inject|
    decreases |inject| - i
  {
    if i == |inject| then current
    else if !(draws(pos) % 100 < 10) then InsertAll(current, inject, i + 1, draws, pos + 1)
    else if current == [] then InsertAll([inject[i]], inject, i + 1, draws, pos + 1)
    else InsertAll(Insert(current, Index(draws(pos + 1), |current|), inject[i]), inject, i + 1, draws, pos + 2)
  }

  /** One chance: a draw below ten in a hundred inserts the word, where the next draw says unless the list is empty. */
  lemma OneChance(current: seq<Word>, inject: seq<Word>, i: nat, draws: Draws, pos: nat)
    requires i < |inject|
    ensures draws(pos) % 100 >= 10 ==>
              InsertAll(current, inject, i, draws, pos) == InsertAll(current, inject, i + 1, draws, pos + 1)
    ensures draws(pos) % 100 < 10 && current == [] ==>
              InsertAll(current, inject, i, draws, pos) == InsertAll([inject[i]], inject, i + 1, draws, pos + 1)
    ensures draws(pos) % 100 < 10 && current != [] ==>
              var k := draws(pos + 1) % |current|;
              && 0 <= k < |current|
              && InsertAll(current, inject, i, draws, pos)
                 == InsertAll(current[..k] + [inject[i]] + current[k..], inject, i + 1, draws, pos + 2)
  {
    if draws(pos) % 100 < 10 && current != [] {
      assert Index(draws(pos + 1), |current|) == draws(pos + 1) % |current|;
    }
  }

  /** Draws of ten in a hundred or more insert nothing ... */
  lemma {:induction false} NothingInserted(current: seq<Word>, inject: seq<Word>, i: nat, draws: Draws, pos: nat)
    requires i <= |inject| && forall p: nat | p >= pos :: draws(p) % 100 >= 10
    ensures InsertAll(current, inject, i, draws, pos) == current && Chosen(inject, i, draws, pos, |current|) == []
    decreases |inject| - i
  {
    if i < |inject| {
      NothingInserted(current, inject, i + 1, draws, pos + 1);
    }
  }

  /** ... and draws below it insert every word. */
  lemma {:induction false} EverythingInserted(inject: seq<Word>, i: nat, draws: Draws, pos: nat, size: nat)
    requires i <= |inject| && forall p: nat | p >= pos :: draws(p) % 100 < 10
    ensures Chosen(inject, i, draws, pos, size) == inject[i..]
    decreases |inject| - i
  {
    if i < |inject| {
      EverythingInserted(inject, i + 1, draws, pos + (if size == 0 then 1 else 2), size + 1);
      assert inject[i..] == [inject[i]] + inject[i + 1..];
    }
  }

  /** Any relation between chosen words and list that single insertions keep, all insertions keep. */
  lemma {:induction false} InsertAllKeeps(
    good: (seq<Word>, seq<Word>) -> bool, chosen: seq<Word>, current: seq<Word>, inject: seq<Word>, i: nat, draws: Draws,
    pos: nat)
    requires i <= |inject| && good(chosen, current) && InsertionKeeps(good)
    ensures good(chosen + Chosen(inject, i, draws, pos, |current|), InsertAll(current, inject, i, draws, pos))
    decreases |inject| - i
  {
    if i == |inject| {
      assert chosen + [] == chosen;
    } else if !(draws(pos) % 100 < 10) {
      InsertAllKeeps(good, chosen, current, inject, i + 1, draws, pos + 1);
    } else {
      var w := inject[i];
      var k := if current == [] then 0 else Index(draws(pos + 1), |current|);
      var next := pos + (if current == [] then 1 else 2);
      assert good(chosen + [w], Insert(current, k, w));
      InsertAllKeeps(good, chosen + [w], Insert(current, k, w), inject, i + 1, draws, next);
      Regrouped(good, chosen, w, Chosen(inject, i + 1, draws, next, |current| + 1),
                InsertAll(Insert(current, k, w), inject, i + 1, draws, next));
      InsertFirst(current, w);
    }
  }

  lemma Regrouped(good: (seq<Word>, seq<Word>) -> bool, chosen: seq<Word>, w: Word, rest: seq<Word>, result: seq<Word>)
    requires good(chosen + [w] + rest, result)
    ensures good(chosen + ([w] + rest), result)
  {
    assert chosen + ([w] + rest) == chosen + [w] + rest;
  }

  lemma InsertFirst(current: seq<Word>, w: Word)
    ensures current == [] ==> Insert(current, 0, w) == [w]
  {
  }

  ghost predicate InsertionKeeps(good: (seq<Word>, seq<Word>) -> bool) {
    forall chosen: seq<Word>, current: seq<Word>, k: nat, w: Word | good(chosen, current) && k <= |current| ::
      good(chosen + [w], Insert(current, k, w))
  }

  /** Insertion keeps the old words in order and adds exactly the chosen ones. */
  lemma {:induction false} InsertAllMixes(kept: seq<Word>, inject: seq<Word>, draws: Draws, pos: nat)
    ensures Mixed(kept, Chosen(inject, 0, draws, pos, |kept|), InsertAll(kept, inject, 0, draws, pos))
  {
    InsertionMixes(kept, inject, 0, draws, pos);
  }

  lemma {:induction false} InsertionMixes(kept: seq<Word>, inject: seq<Word>, i: nat, draws: Draws, pos: nat)
    requires i <= |inject|
    ensures Mixed(kept, Chosen(inject, i, draws, pos, |kept|), InsertAll(kept, inject, i, draws, pos))
  {
    var good := (chosen: seq<Word>, current: seq<Word>) => Mixed(kept, chosen, current);
    MixedKeeps(kept, good);
    SubsequenceSelf(kept);
    assert good([], kept);
    InsertAllKeeps(good, [], kept, inject, i, draws, pos);
    NothingBefore(Chosen(inject, i, draws, pos, |kept|));
  }

  lemma NothingBefore(words: seq<Word>)
    ensures [] + words == words
  {
  }

  lemma MixedKeeps(kept: seq<Word>, good: (seq<Word>, seq<Word>) -> bool)
    requires forall chosen: seq<Word>, current: seq<Word> :: good(chosen, current) <==> Mixed(kept, chosen, current)
    ensures InsertionKeeps(good)
  {
    forall chosen: seq<Word>, current: seq<Word>, k: nat, w: Word | good(chosen, current) && k <= |current|
      ensures good(chosen + [w], Insert(current, k, w))
    {
      MixedInsert(kept, chosen, current, k, w);
    }
  }

  method InsertSome(kept: seq<Word>, inject: seq<Word>, draws: Draws, at: nat) returns (mutated: seq<Word>)
    ensures mutated == InsertAll(kept, inject, 0, draws, at)
  {
    mutated := kept;
    var pos := at;
    for i := 0 to |inject|
      invariant InsertAll(mutated, inject, i, draws, pos) == InsertAll(kept, inject, 0, draws, at)
    {
      var draw := draws(pos);
      pos := pos + 1;
      if draw % 100 < 10 {
        var index := 0;
        if mutated != [] {
          index := Index(draws(pos), |mutated|);
          pos := pos + 1;
        } else {
          assert mutated[..0] + [inject[i]] + mutated[0..] == [inject[i]];
        }
        mutated := mutated[..index] + [inject[i]] + mutated[index..];
      }
    }
  }

  method Serialize(words: seq<Word>) returns (bytes: seq<Byte>)
    ensures bytes == Bytes(words)
  {
    bytes := [];
    for i := 0 to |words|
      invariant bytes == Bytes(words[..i])
    {
      EncodedAppend(WordBytes, words[..i], words[i]);
      assert words[..i + 1] == words[..i] + [words[i]];
      bytes := bytes + WordBytes(words[i]);
    }
    assert words[..|words|] == words;
  }

  /** `n` nops and the final mpause. */
  function PaddingWords(n: nat): (words: seq<Word>)
    ensures |words| == n + 1 && words[n] == 0x0800_0073 && forall i | 0 <= i < n :: words[i] == 0x13
  {
    seq(n, _ => NOP_WORD) + [MPAUSE_WORD]
  }

  /** The number of nops between a byte position and the last word of the instruction memory. */
  function Gap(total: nat): nat {
    if total >= 8188 then 0 else (8188 - total + 3) / 4
  }

  method Postamble(total: nat) returns (bytes: seq<Byte>)
    ensures bytes == Bytes(PaddingWords(Gap(total)))
  {
    bytes := [];
    var pc := total;
    ghost var n: nat := 0;
    while pc < 8188
      invariant pc == total + 4 * n && n <= Gap(total) && (pc >= 8188 ==> n == Gap(total))
      invariant bytes == Bytes(seq(n, _ => NOP_WORD))
    {
      EncodedAppend(WordBytes, seq(n, _ => NOP_WORD), NOP_WORD);
      assert seq(n + 1, _ => NOP_WORD) == seq(n, _ => NOP_WORD) + [NOP_WORD];
      bytes := bytes + WordBytes(NOP_WORD);
      pc := pc + 4;
      n := n + 1;
    }
    EncodedAppend(WordBytes, seq(n, _ => NOP_WORD), MPAUSE_WORD);
    bytes := bytes + WordBytes(MPAUSE_WORD);
  }

  // ---------------------------------------------------------------- the mutation

  /** The mutable part's new size in bytes. */
  function NewSize(parent: Sequence, draws: Draws, inject: seq<Word>): nat
    requires parent.Valid()
  {
    var words := MutableWords(parent);
    var kept := Kept(words, draws);
    4 * (|kept| + |Chosen(inject, 0, draws, |words| + 1, |kept|)|)
  }

  lemma NewSizeIsOfWords(parent: Sequence, draws: Draws, inject: seq<Word>)
    requires parent.Valid()
    ensures var words := MutableWords(parent);
      NewSize(parent, draws, inject) == 4 * |InsertAll(Kept(words, draws), inject, 0, draws, |words| + 1)|
  {
    var words := MutableWords(parent);
    var kept := Kept(words, draws);
    MutatedMixes(kept, inject, draws, |words| + 1);
    assert NewSize(parent, draws, inject) == 4 * (|kept| + |Chosen(inject, 0, draws, |words| + 1, |kept|)|);
  }

  /** What a child has of its parent. */
  ghost predicate ChildOf(parent: Sequence, child: Sequence, draws: Draws, inject: seq<Word>)
    requires parent.Valid()
  {
    var words := MutableWords(parent);
    var kept := Kept(words, draws);
    var start := parent.mutableStart;
    && child.Valid() && child.mutableStart == start && child.mutableEnd == start + NewSize(parent, draws, inject)
    && child.binary[..start] == parent.binary[..start]
    && MutableWords(child) == InsertAll(kept, inject, 0, draws, |words| + 1)
    && Mixed(kept, Chosen(inject, 0, draws, |words| + 1, |kept|), MutableWords(child))
    && child.binary[child.mutableEnd..] == Bytes(PaddingWords(Gap(child.mutableEnd)))
  }

  /** The parent itself when the new program would not fit, and a child otherwise. The draw between the
      drops and the insertions seeds the generator of the injected words. */
  method Mutate(parent: Sequence, draws: Draws, inject: seq<Word>) returns (child: Sequence)
    requires parent.Valid()
    ensures if parent.mutableStart + NewSize(parent, draws, inject) > 8188 then child == parent
            else ChildOf(parent, child, draws, inject)
    ensures child.Valid() && child.mutableStart == parent.mutableStart
    ensures child.binary[..parent.mutableStart] == parent.binary[..parent.mutableStart]
  {
    var words := ReadMutable(parent);
    var kept := DropSome(words, draws);
    var mutated := InsertSome(kept, inject, draws, |words| + 1);
    MutatedMixes(kept, inject, draws, |words| + 1);
    var bytes := Serialize(mutated);
    var total := parent.mutableStart + |bytes|;
    if total > 8188 {
      return parent;
    }
    var postamble := Postamble(total);
    var preamble := parent.binary[..parent.mutableStart];
    child := Sequence(preamble + bytes + postamble, parent.mutableStart, total);
    MutatedRead(preamble, mutated, postamble, child);
  }

  lemma MutatedMixes(kept: seq<Word>, inject: seq<Word>, draws: Draws, at: nat)
    ensures var mutated := InsertAll(kept, inject, 0, draws, at);
      var chosen := Chosen(inject, 0, draws, at, |kept|);
      Mixed(kept, chosen, mutated) && |mutated| == |kept| + |chosen|
  {
    InsertAllMixes(kept, inject, draws, at);
    MixedSize(kept, Chosen(inject, 0, draws, at, |kept|), InsertAll(kept, inject, 0, draws, at));
  }

  lemma MutatedRead(preamble: seq<Byte>, mutated: seq<Word>, postamble: seq<Byte>, child: Sequence)
    requires child == Sequence(preamble + Bytes(mutated) + postamble, |preamble|, |preamble| + 4 * |mutated|)
    ensures child.Valid() && MutableWords(child) == mutated
    ensures child.binary[..|preamble|] == preamble && child.binary[child.mutableEnd..] == postamble
  {
    var bytes := Bytes(mutated);
    Three(preamble, bytes, postamble);
    ValidChild(preamble, bytes, postamble, |mutated|, child);
    WordsRead(preamble, mutated, postamble);
  }

  lemma ValidChild(preamble: seq<Byte>, bytes: seq<Byte>, postamble: seq<Byte>, n: nat, child: Sequence)
    requires |bytes| == 4 * n && child == Sequence(preamble + bytes + postamble, |preamble|, |preamble| + 4 * n)
    ensures child.Valid() && (child.mutableEnd - child.mutableStart) / 4 == n
  {
    WholeWords(|preamble|, n);
  }

  lemma WholeWords(start: nat, n: nat)
    ensures (start + 4 * n - start) % 4 == 0 && (start + 4 * n - start) / 4 == n
  {
  }

  lemma Three(a: seq<Byte>, b: seq<Byte>, c: seq<Byte>)
    ensures (a + b + c)[..|a|] == a && (a + b + c)[|a| + |b|..] == c
  {
  }

  /** A child's program ends in mpause, and fills the 8 KB exactly when its mutable part is aligned. */
  lemma ChildEndsInMpause(parent: Sequence, child: Sequence, draws: Draws, inject: seq<Word>)
    requires parent.Valid() && ChildOf(parent, child, draws, inject) && child.mutableEnd <= 8188
    ensures |child.binary| == 8192 + parent.mutableStart % 4
    ensures |child.binary| == 8192 <==> parent.mutableStart % 4 == 0
    ensures ReadWord(child.binary, |child.binary| - 4) == MPAUSE_WORD
  {
    var end := child.mutableEnd;
    var n := Gap(end);
    GapFills(parent.mutableStart, NewSize(parent, draws, inject));
    LastWord(child.binary, end, PaddingWords(n), n);
    assert PaddingWords(n)[n] == MPAUSE_WORD;
  }

  lemma LastWord(bin: seq<Byte>, end: nat, words: seq<Word>, n: nat)
    requires end <= |bin| && bin[end..] == Bytes(words) && |words| == n + 1
    ensures |bin| == end + 4 * n + 4 && ReadWord(bin, |bin| - 4) == words[n]
  {
    var tail := Bytes(words);
    ReadLast(words, n, tail);
    SameWord(bin, tail, end, 4 * n);
  }

  lemma ReadLast(words: seq<Word>, n: nat, tail: seq<Byte>)
    requires |words| == n + 1 && tail == Bytes(words)
    ensures |tail| == 4 * n + 4 && ReadWord(tail, 4 * n) == words[n]
  {
    EncodedSlice(WordBytes, words, n);
    ReadBytes(tail, 4 * n, words[n]);
  }

  lemma SameWord(a: seq<Byte>, b: seq<Byte>, end: nat, i: nat)
    requires end <= |a| && a[end..] == b && i + 4 <= |b|
    ensures ReadWord(a, end + i) == ReadWord(b, i)
  {
    assert b[i] == a[end + i] && b[i + 1] == a[end + i + 1] && b[i + 2] == a[end + i + 2] && b[i + 3] == a[end + i + 3];
  }

  lemma GapFills(start: nat, size: nat)
    requires size % 4 == 0 && start + size <= 8188
    ensures start + size + 4 * (Gap(start + size) + 1) == 8192 + start % 4
  {
  }

  /** The kept words are the parent's, in order, and nothing else comes from the parent. */
  lemma ChildKeepsOrder(parent: Sequence, child: Sequence, draws: Draws, inject: seq<Word>)
    requires parent.Valid() && ChildOf(parent, child, draws, inject)
    ensures var kept := Kept(MutableWords(parent), draws);
      Subsequence(kept, MutableWords(parent)) && Subsequence(kept, MutableWords(child))
  {
    KeptSubsequence(MutableWords(parent), draws);
  }
}
