/** An FPGA image that arrives in chunks of any lengths.  Each chunk goes out in whole words of its
    own, so a chunk that ends in a partial word shifts everything behind it. */
module ImageStreams {
  import opened Bytes
  import opened FpgaManager

  function Flat(chunks: seq<seq<Byte>>): seq<Byte> {
    if chunks == [] then [] else chunks[0] + Flat(chunks[1..])
  }

  /** The words that go out, chunk by chunk. */
  function AllWords(chunks: seq<seq<Byte>>): seq<seq<Byte>> {
    if chunks == [] then [] else AxiWords(chunks[0]) + AllWords(chunks[1..])
  }

  /** The words that n bytes need, and those that the chunks take. */
  function WordCount(n: nat): nat {
    (n + 3) / 4
  }

  function WordsTaken(chunks: seq<seq<Byte>>): nat {
    if chunks == [] then 0 else WordCount(|chunks[0]|) + WordsTaken(chunks[1..])
  }

  predicate AllZero(bytes: seq<Byte>) {
    forall i | 0 <= i < |bytes| :: bytes[i] == 0
  }

  /** The first chunk that ends in a partial word, if there is one, ends as it begins; and nothing
      but zeros may follow it, cut so that no more words are taken than are needed. */
  predicate Harmless(chunks: seq<seq<Byte>>) {
    chunks == []
    || if |chunks[0]| % 4 == 0 then Harmless(chunks[1..])
       else TailRight(chunks[0]) && AllZero(Flat(chunks[1..])) && WordsTaken(chunks) == WordCount(|Flat(chunks)|)
  }

  // ---- How many words ----

  lemma {:induction false} WordsLength(data: seq<Byte>)
    ensures |Words(data)| == WordCount(|data|) && forall k | 0 <= k < |Words(data)| :: |Words(data)[k]| == 4
    decreases |data|
  {
    if |data| >= 4 {
      WordsLength(data[4..]);
      var w, rest := Words(data), Words(data[4..]);
      forall k | 0 <= k < |w| ensures |w[k]| == 4 {
        if k > 0 { assert w[k] == rest[k - 1]; }
      }
    }
  }

  lemma AxiWordsLength(data: seq<Byte>)
    ensures |AxiWords(data)| == WordCount(|data|)
  {
    WholePart(|data|);
    WordsLength(Front(data, |data| - |data| % 4));
  }

  lemma {:induction false} AllWordsLength(chunks: seq<seq<Byte>>)
    ensures |AllWords(chunks)| == WordsTaken(chunks)
  {
    if chunks != [] {
      AxiWordsLength(chunks[0]);
      AllWordsLength(chunks[1..]);
    }
  }

  /** Cutting the bytes into chunks takes no fewer words. */
  lemma {:induction false} AtLeastNeeded(chunks: seq<seq<Byte>>)
    ensures WordCount(|Flat(chunks)|) <= WordsTaken(chunks)
  {
    if chunks != [] { AtLeastNeeded(chunks[1..]); }
  }

  // ---- The bytes of the words ----

  function Joined(words: seq<seq<Byte>>): seq<Byte> {
    if words == [] then [] else words[0] + Joined(words[1..])
  }

  lemma {:induction false} JoinedConcat(a: seq<seq<Byte>>, b: seq<seq<Byte>>)
    ensures Joined(a + b) == Joined(a) + Joined(b)
  {
    if a == [] {
      assert a + b == b;
    } else {
      assert (a + b)[1..] == a[1..] + b;
      JoinedConcat(a[1..], b);
    }
  }

  lemma {:induction false} JoinedWords(data: seq<Byte>)
    ensures data <= Joined(Words(data)) && (|data| % 4 == 0 ==> Joined(Words(data)) == data)
    decreases |data|
  {
    if |data| >= 4 {
      JoinedWords(data[4..]);
      assert Words(data)[1..] == Words(data[4..]);
      assert data == data[..4] + data[4..];
    } else if data != [] {
      assert Joined([Padded(data)]) == Padded(data);
    }
  }

  /** A byte that goes out is zero, or one of the bytes that were to go out so far. */
  ghost predicate Drawn(out: seq<Byte>, data: seq<Byte>) {
    forall i: nat | i < |out| :: out[i] == 0 || Among(data, i, out[i])
  }

  ghost predicate Among(data: seq<Byte>, i: nat, b: Byte) {
    exists j: nat :: j <= i && j < |data| && data[j] == b
  }

  lemma FrontPadded(front: seq<Byte>)
    requires |front| < 4
    ensures forall i | 0 <= i < 4 :: Padded(front)[i] == if i < |front| then front[i] else 0
  {
  }

  lemma ChunkDrawn(chunk: seq<Byte>)
    ensures Drawn(Joined(AxiWords(chunk)), chunk) && |chunk| <= |Joined(AxiWords(chunk))|
  {
    var rest := |chunk| % 4;
    var whole, front := Front(chunk, |chunk| - rest), Front(chunk, rest);
    WholePart(|chunk|);
    JoinedWords(whole);
    if rest != 0 {
      JoinedConcat(Words(whole), [Padded(front)]);
      assert Joined([Padded(front)]) == Padded(front);
      FrontPadded(front);
    }
    var out := Joined(AxiWords(chunk));
    assert out == whole + if rest != 0 then Padded(front) else [];
    forall i: nat | i < |out| ensures out[i] == 0 || Among(chunk, i, out[i]) {
      if i < |whole| {
        assert chunk[i] == out[i];
      } else if i - |whole| < rest {
        assert chunk[i - |whole|] == out[i];
      }
    }
  }

  lemma DrawnConcat(out: seq<Byte>, data: seq<Byte>, out': seq<Byte>, data': seq<Byte>)
    requires Drawn(out, data) && Drawn(out', data') && |data| <= |out|
    ensures Drawn(out + out', data + data')
  {
    forall i: nat | i < |out + out'| ensures (out + out')[i] == 0 || Among(data + data', i, (out + out')[i]) {
      if i < |out| {
        if out[i] != 0 {
          var j: nat :| j <= i && j < |data| && data[j] == out[i];
          assert (data + data')[j] == out[i];
        }
      } else if out'[i - |out|] != 0 {
        var j: nat :| j <= i - |out| && j < |data'| && data'[j] == out'[i - |out|];
        assert (data + data')[|data| + j] == data'[j];
      }
    }
  }

  lemma {:induction false} AllDrawn(chunks: seq<seq<Byte>>)
    ensures Drawn(Joined(AllWords(chunks)), Flat(chunks)) && |Flat(chunks)| <= |Joined(AllWords(chunks))|
  {
    if chunks != [] {
      ChunkDrawn(chunks[0]);
      AllDrawn(chunks[1..]);
      JoinedConcat(AxiWords(chunks[0]), AllWords(chunks[1..]));
      DrawnConcat(Joined(AxiWords(chunks[0])), chunks[0], Joined(AllWords(chunks[1..])), Flat(chunks[1..]));
    }
  }

  // ---- Behind a partial word ----

  /** If what goes out is what was to go out `shift` bytes later, and the bytes skipped were zeros,
      then all of them are: each is drawn from an earlier one. */
  lemma {:induction false} ShiftedZero(data: seq<Byte>, out: seq<Byte>, shift: nat, m: nat)
    requires 0 < shift <= |data| && m < |data| && AllZero(data[..shift])
    requires Drawn(out, data) && data[shift..] <= out
    ensures data[m] == 0
    decreases m
  {
    if m < shift {
      assert data[m] == data[..shift][m];
    } else {
      assert data[m] == data[shift..][m - shift] == out[m - shift];
      if out[m - shift] != 0 {
        var j: nat :| j <= m - shift && j < |data| && data[j] == out[m - shift];
        ShiftedZero(data, out, shift, j);
      }
    }
  }

  lemma ShiftedChunksZero(chunks: seq<seq<Byte>>, shift: nat)
    requires 0 < shift <= |Flat(chunks)| && AllZero(Flat(chunks)[..shift])
    requires AllWords(chunks) == Words(Flat(chunks)[shift..])
    ensures AllZero(Flat(chunks))
  {
    var data, out := Flat(chunks), Joined(AllWords(chunks));
    AllDrawn(chunks);
    JoinedWords(data[shift..]);
    forall m | 0 <= m < |data| ensures data[m] == 0 {
      ShiftedZero(data, out, shift, m);
    }
  }

  predicate ZeroWords(words: seq<seq<Byte>>) {
    forall k | 0 <= k < |words| :: words[k] == [0, 0, 0, 0]
  }

  lemma {:induction false} WordsOfZeros(data: seq<Byte>)
    requires AllZero(data)
    ensures ZeroWords(Words(data))
    decreases |data|
  {
    if |data| >= 4 {
      assert AllZero(data[4..]);
      WordsOfZeros(data[4..]);
      var w, rest := Words(data), Words(data[4..]);
      forall k | 0 <= k < |w| ensures w[k] == [0, 0, 0, 0] {
        if k > 0 { assert w[k] == rest[k - 1]; }
      }
    } else if data != [] {
      assert Padded(data) == [0, 0, 0, 0];
    }
  }

  lemma AxiWordsOfZeros(data: seq<Byte>)
    requires AllZero(data)
    ensures ZeroWords(AxiWords(data))
  {
    WholePart(|data|);
    var rest := |data| % 4;
    WordsOfZeros(Front(data, |data| - rest));
    if rest != 0 { assert Padded(Front(data, rest)) == [0, 0, 0, 0]; }
  }

  lemma {:induction false} AllWordsOfZeros(chunks: seq<seq<Byte>>)
    requires AllZero(Flat(chunks))
    ensures ZeroWords(AllWords(chunks))
  {
    if chunks != [] {
      var a, b := chunks[0], Flat(chunks[1..]);
      assert forall i | 0 <= i < |a| :: a[i] == Flat(chunks)[i];
      assert forall i | 0 <= i < |b| :: b[i] == Flat(chunks)[|a| + i];
      AxiWordsOfZeros(a);
      AllWordsOfZeros(chunks[1..]);
    }
  }

  lemma SameZeroWords(a: seq<seq<Byte>>, b: seq<seq<Byte>>)
    requires ZeroWords(a) && ZeroWords(b)
    ensures a == b <==> |a| == |b|
  {
  }

  /** Nothing comes of chunks that hold nothing. */
  lemma {:induction false} NoBytesNoWords(chunks: seq<seq<Byte>>)
    ensures AllWords(chunks) == [] <==> Flat(chunks) == []
  {
    AllWordsLength(chunks);
    AtLeastNeeded(chunks);
    if chunks != [] && Flat(chunks) == [] {
      NoBytesNoWords(chunks[1..]);
      AxiWordsLength(chunks[0]);
    }
  }

  /** A partial word `front` goes out in place of `tail`, which the bytes of the other chunks were
      to follow. */
  lemma PartialThenRest(front: seq<Byte>, tail: seq<Byte>, chunks: seq<seq<Byte>>)
    requires 0 < |front| == |tail| < 4
    ensures [Padded(front)] + AllWords(chunks) == Words(tail + Flat(chunks))
       <==> front == tail && AllZero(Flat(chunks)) && 1 + WordsTaken(chunks) == WordCount(|tail| + |Flat(chunks)|)
  {
    var data := Flat(chunks);
    AllWordsLength(chunks);
    WordsLength(tail + data);
    if [Padded(front)] + AllWords(chunks) == Words(tail + data) {
      PartialOnlyIf(front, tail, chunks);
    }
    if front == tail && AllZero(data) && 1 + WordsTaken(chunks) == WordCount(|tail| + |data|) {
      PartialIf(tail, chunks);
    }
  }

  lemma PartialOnlyIf(front: seq<Byte>, tail: seq<Byte>, chunks: seq<seq<Byte>>)
    requires 0 < |front| == |tail| < 4 && [Padded(front)] + AllWords(chunks) == Words(tail + Flat(chunks))
    ensures front == tail && AllZero(Flat(chunks))
  {
    var data, written := Flat(chunks), [Padded(front)] + AllWords(chunks);
    var meant := tail + data;
    assert written[0] == Padded(front) && written[1..] == AllWords(chunks);
    if |meant| < 4 {
      assert Words(meant) == [Padded(meant)] && AllWords(chunks) == [];
      NoBytesNoWords(chunks);
      assert meant == tail;
      PaddedSame(front, tail);
    } else {
      var shift := 4 - |tail|;
      assert Padded(front) == meant[..4] && AllWords(chunks) == Words(meant[4..]);
      assert meant[..4] == tail + data[..shift] && meant[4..] == data[shift..];
      PaddedIs(front, tail, data[..shift]);
      ShiftedChunksZero(chunks, shift);
    }
  }

  lemma PaddedIs(front: seq<Byte>, tail: seq<Byte>, next: seq<Byte>)
    requires |front| == |tail| < 4 && |tail| + |next| == 4 && Padded(front) == tail + next
    ensures front == tail && AllZero(next)
  {
    FrontPadded(front);
    forall i | 0 <= i < |front| ensures front[i] == tail[i] {
      assert Padded(front)[i] == (tail + next)[i];
    }
    forall i | 0 <= i < |next| ensures next[i] == 0 {
      assert (tail + next)[|tail| + i] == Padded(front)[|tail| + i];
    }
  }

  lemma PartialIf(tail: seq<Byte>, chunks: seq<seq<Byte>>)
    requires 0 < |tail| < 4 && AllZero(Flat(chunks)) && 1 + WordsTaken(chunks) == WordCount(|tail| + |Flat(chunks)|)
    ensures [Padded(tail)] + AllWords(chunks) == Words(tail + Flat(chunks))
  {
    AllWordsLength(chunks);
    AllWordsOfZeros(chunks);
    ZerosBehind(tail, Flat(chunks));
    SameWords(Words(tail + Flat(chunks)), Padded(tail), AllWords(chunks));
  }

  /** A partial word with zeros behind it: the word filled up, and zero words. */
  lemma ZerosBehind(tail: seq<Byte>, zeros: seq<Byte>)
    requires 0 < |tail| < 4 && AllZero(zeros)
    ensures var w := Words(tail + zeros);
            |w| == WordCount(|tail| + |zeros|) && 0 < |w| && w[0] == Padded(tail) && ZeroWords(w[1..])
  {
    var meant, shift := tail + zeros, 4 - |tail|;
    WordsLength(meant);
    if |meant| < 4 {
      assert Padded(meant) == Padded(tail);
    } else {
      assert meant[..4] == Padded(tail) && meant[4..] == zeros[shift..];
      WordsOfZeros(zeros[shift..]);
      assert Words(meant)[1..] == Words(meant[4..]);
    }
  }

  lemma SameWords(all: seq<seq<Byte>>, first: seq<Byte>, rest: seq<seq<Byte>>)
    requires |all| == 1 + |rest| && all[0] == first && ZeroWords(all[1..]) && ZeroWords(rest)
    ensures [first] + rest == all
  {
    SameZeroWords(all[1..], rest);
    assert all == [all[0]] + all[1..];
  }

  // ---- The whole stream ----

  /** In chunks of any lengths, the words written are those of the concatenated stream if and only
      if the chunks are harmless. */
  lemma {:induction false} ChunksExactlyWhen(chunks: seq<seq<Byte>>)
    ensures AllWords(chunks) == Words(Flat(chunks)) <==> Harmless(chunks)
  {
    if chunks != [] {
      var c, rest := chunks[0], chunks[1..];
      if |c| % 4 == 0 {
        NoPartialWord(c);
        WordsConcat(c, Flat(rest));
        SameFront(Words(c), AllWords(rest), Words(Flat(rest)));
        ChunksExactlyWhen(rest);
      } else {
        assert chunks == [c] + rest;
        PartialChunk(c, rest);
      }
    }
  }

  /** The chunk c goes out as the words of `whole` and one for `front`, and ends in `tail`. */
  lemma PartialBehind(c: seq<Byte>, whole: seq<Byte>, front: seq<Byte>, tail: seq<Byte>, rest: seq<seq<Byte>>)
    requires |whole| % 4 == 0 && 0 < |front| == |tail| < 4
    requires c == whole + tail && AxiWords(c) == Words(whole) + [Padded(front)]
    ensures AxiWords(c) + AllWords(rest) == Words(c + Flat(rest))
       <==> [Padded(front)] + AllWords(rest) == Words(tail + Flat(rest))
  {
    WordsBetween(c, whole, tail, Flat(rest));
    SameBehind(AxiWords(c), Words(whole), Padded(front), AllWords(rest), Words(tail + Flat(rest)));
  }

  lemma WordsBetween(c: seq<Byte>, whole: seq<Byte>, tail: seq<Byte>, data: seq<Byte>)
    requires |whole| % 4 == 0 && c == whole + tail
    ensures Words(c + data) == Words(whole) + Words(tail + data)
  {
    var behind := tail + data;
    Associates(whole, tail, data);
    WordsConcat(whole, behind);
  }

  lemma Associates<T>(a: seq<T>, b: seq<T>, c: seq<T>)
    ensures a + b + c == a + (b + c)
  {
  }

  lemma SameBehind(
    all: seq<seq<Byte>>, whole: seq<seq<Byte>>, word: seq<Byte>, rest: seq<seq<Byte>>, meant: seq<seq<Byte>>)
    requires all == whole + [word]
    ensures all + rest == whole + meant <==> [word] + rest == meant
  {
    assert all + rest == whole + ([word] + rest);
    SameFront(whole, [word] + rest, meant);
  }

  /** What goes out for a chunk that ends in a partial word. */
  lemma ChunkParts(c: seq<Byte>, r: nat)
    requires r == |c| % 4 && 0 < r
    ensures |Front(c, |c| - r)| % 4 == 0 && c == Front(c, |c| - r) + Back(c, r)
    ensures AxiWords(c) == Words(Front(c, |c| - r)) + [Padded(Front(c, r))]
  {
    WholePart(|c|);
    Split(c, r);
  }

  lemma PartialChunk(c: seq<Byte>, rest: seq<seq<Byte>>)
    requires |c| % 4 != 0
    ensures AxiWords(c) + AllWords(rest) == Words(c + Flat(rest))
       <==> TailRight(c) && AllZero(Flat(rest)) && WordsTaken([c] + rest) == WordCount(|c| + |Flat(rest)|)
  {
    var r := |c| % 4;
    var whole, front, tail := Front(c, |c| - r), Front(c, r), Back(c, r);
    ChunkParts(c, r);
    PartialBehind(c, whole, front, tail, rest);
    PartialThenRest(front, tail, rest);
    FrontIsBack(c, r);
    CountBehind(c, r, rest);
  }

  lemma CountBehind(c: seq<Byte>, r: nat, rest: seq<seq<Byte>>)
    requires r == |c| % 4 && 0 < r
    ensures 1 + WordsTaken(rest) == WordCount(r + |Flat(rest)|)
       <==> WordsTaken([c] + rest) == WordCount(|c| + |Flat(rest)|)
  {
    assert ([c] + rest)[1..] == rest;
    WordsBehind(|c|, r, |Flat(rest)|);
  }

  lemma WordsBehind(n: nat, r: nat, more: nat)
    requires r == n % 4 && 0 < r
    ensures WordCount(n) == n / 4 + 1 && WordCount(n + more) == n / 4 + WordCount(r + more)
  {
  }

  lemma FrontIsBack(c: seq<Byte>, r: nat)
    requires r == |c| % 4 && 0 < r
    ensures Front(c, r) == Back(c, r) <==> TailRight(c)
  {
    WholePart(|c|);
    Split(c, r);
  }

  function Chunks(stream: nat -> Chunk, n: nat): (c: seq<seq<Byte>>)
    ensures |c| == n
  {
    if n == 0 then [] else Chunks(stream, n - 1) + [stream(n - 1).bytes]
  }

  lemma {:induction false} OneMoreChunk(chunks: seq<seq<Byte>>, c: seq<Byte>)
    ensures AllWords(chunks + [c]) == AllWords(chunks) + AxiWords(c) && Flat(chunks + [c]) == Flat(chunks) + c
  {
    if chunks == [] {
      assert [c][1..] == [] && chunks + [c] == [c];
    } else {
      assert (chunks + [c])[1..] == chunks[1..] + [c];
      OneMoreChunk(chunks[1..], c);
    }
  }

  lemma {:induction false} StreamAsChunks(stream: nat -> Chunk, n: nat)
    ensures StreamWords(stream, n) == AllWords(Chunks(stream, n)) && StreamBytes(stream, n) == Flat(Chunks(stream, n))
  {
    if n > 0 {
      StreamAsChunks(stream, n - 1);
      OneMoreChunk(Chunks(stream, n - 1), stream(n - 1).bytes);
    }
  }

  /** The words that n calls for data lead to are the words of the stream exactly then. */
  lemma StreamExactlyWhen(stream: nat -> Chunk, n: nat)
    ensures StreamWords(stream, n) == Words(StreamBytes(stream, n)) <==> Harmless(Chunks(stream, n))
  {
    StreamAsChunks(stream, n);
    ChunksExactlyWhen(Chunks(stream, n));
  }

  /** A byte by itself puts all the others into the wrong words. */
  lemma ShortChunkCounterexample()
    ensures AllWords([[1], [2, 3, 4, 5]]) != Words([1, 2, 3, 4, 5])
  {
    var chunks: seq<seq<Byte>> := [[1], [2, 3, 4, 5]];
    assert chunks[1..] == [[2, 3, 4, 5]] && chunks[1..][1..] == [];
    assert Flat(chunks[1..]) == [2, 3, 4, 5] && Flat(chunks) == [1, 2, 3, 4, 5];
    assert Flat(chunks[1..])[0] == 2;
    ChunksExactlyWhen(chunks);
  }
}
