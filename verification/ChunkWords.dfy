/** When http_parse takes a header for a chunked one, in the words of the header. */
module ChunkWords {
  import opened Bytes
  import opened ChunkCode
  import opened Dechunk

  /** A byte that is this character, or the same letter in the other case. */
  predicate Alike(b: Byte, c: char) {
    || b == c as int
    || ('a' <= c <= 'z' && b == c as int - 32)
    || ('A' <= c <= 'Z' && b == c as int + 32)
  }

  /** The word is at place `i`, up to the case of its letters. */
  predicate WordAt(s: Text, i: nat, word: string) {
    i + |word| <= |s| && forall k :: 0 <= k < |word| ==> Alike(s[i + k], word[k])
  }

  lemma {:induction false} LowerAt(s: Text, i: nat)
    requires i < |s|
    ensures Lower(s)[i] == if 0x41 <= s[i] <= 0x5a then s[i] + 0x20 else s[i]
  {
    if i > 0 {
      LowerAt(s[1..], i - 1);
    }
  }

  /** strstr finds the text, where it finds anything; FindThere says that it finds it no later than it is there. */
  lemma {:induction false} FindIs(s: Text, t: Text)
    ensures Find(s, t) >= 0 ==> s[Find(s, t)..Find(s, t) + |t|] == t
  {
    if |s| >= |t| && s[..|t|] != t {
      FindIs(s[1..], t);
      var r := Find(s, t);
      if r >= 0 {
        assert s[1..][r - 1..r - 1 + |t|] == s[r..r + |t|];
      }
    }
  }

  /** A text in small letters that is in the lowered header is the word in the header. */
  lemma WordLowered(s: Text, i: nat, word: string, t: Text)
    requires |t| == |word| && i + |t| <= |s|
    requires forall k :: 0 <= k < |word| ==>
      t[k] == if 'A' <= word[k] <= 'Z' then word[k] as int + 32 else word[k] as int
    ensures Lower(s)[i..i + |t|] == t <==> WordAt(s, i, word)
  {
    forall k | 0 <= k < |t| ensures Lower(s)[i + k] == t[k] <==> Alike(s[i + k], word[k]) {
      LowerAt(s, i + k);
    }
    if WordAt(s, i, word) {
      forall k | 0 <= k < |t| ensures Lower(s)[i..i + |t|][k] == t[k] {
        assert Alike(s[i + k], word[k]);
      }
    } else {
      var k :| 0 <= k < |t| && !Alike(s[i + k], word[k]);
      assert Lower(s)[i..i + |t|][k] != t[k];
    }
  }

  lemma Words()
    ensures |TRANSFER| == |"Transfer-Encoding:"| && |CHUNKED| == |"chunked"|
    ensures forall k :: 0 <= k < |TRANSFER| ==>
      TRANSFER[k] == var c := "Transfer-Encoding:"[k]; if 'A' <= c <= 'Z' then c as int + 32 else c as int
    ensures forall k :: 0 <= k < |CHUNKED| ==>
      CHUNKED[k] == var c := "chunked"[k]; if 'A' <= c <= 'Z' then c as int + 32 else c as int
  {}

  /** A header says chunked if and only if the word "chunked" is in it at or behind the field name, both in letters of
      whatever case. */
  lemma ChunkedMeans(header: Text)
    ensures SaysChunked(header) <==>
            exists p, q :: 0 <= p <= q && WordAt(header, p, "Transfer-Encoding:") && WordAt(header, q, "chunked")
  {
    hide SaysChunked, WordAt;
    if SaysChunked(header) {
      var p, q := ChunkedWords(header);
    }
    if p, q :| 0 <= p <= q && WordAt(header, p, "Transfer-Encoding:") && WordAt(header, q, "chunked") {
      WordsChunked(header, p, q);
    }
  }

  lemma ChunkedWords(header: Text) returns (p: nat, q: nat)
    requires SaysChunked(header)
    ensures p <= q && WordAt(header, p, "Transfer-Encoding:") && WordAt(header, q, "chunked")
  {
    Words();
    var low := Lower(header);
    p := Find(low, TRANSFER);
    var r := Find(low[p..], CHUNKED);
    q := p + r;
    FindIs(low, TRANSFER);
    FindIs(low[p..], CHUNKED);
    hide Find, Lower, WordAt;
    Behind(low, p, r, |CHUNKED|);
    WordLowered(header, p, "Transfer-Encoding:", TRANSFER);
    WordLowered(header, q, "chunked", CHUNKED);
  }

  lemma WordsChunked(header: Text, p: nat, q: nat)
    requires p <= q && WordAt(header, p, "Transfer-Encoding:") && WordAt(header, q, "chunked")
    ensures SaysChunked(header)
  {
    Words();
    var low := Lower(header);
    var first := Find(low, TRANSFER);
    WordFits(header, p, "Transfer-Encoding:");
    WordFits(header, q, "chunked");
    hide Find, Lower, WordAt;
    WordLowered(header, p, "Transfer-Encoding:", TRANSFER);
    WordLowered(header, q, "chunked", CHUNKED);
    FindThere(low, p, TRANSFER);
    Behind(low, first, q - first, |CHUNKED|);
    FindThere(low[first..], q - first, CHUNKED);
  }

  lemma WordFits(s: Text, i: nat, word: string)
    requires WordAt(s, i, word)
    ensures i + |word| <= |s|
  {}

  lemma Behind(s: Text, p: nat, q: nat, n: nat)
    requires p + q + n <= |s|
    ensures s[p..][q..q + n] == s[p + q..p + q + n]
  {}

  // ---------------------------------------------------------------- a header as servers write it

  lemma WordWritten(front: Text, word: string, behind: Text)
    requires forall i :: 0 <= i < |word| ==> word[i] < 128 as char
    ensures WordAt(front + Ascii(word) + behind, |front|, word)
  {
    var s := front + Ascii(word) + behind;
    forall k | 0 <= k < |word| ensures Alike(s[|front| + k], word[k]) {
      assert s[|front| + k] == Ascii(word)[k];
    }
  }

  lemma NoneOf(word: string, c: Byte)
    requires forall i :: 0 <= i < |word| ==> word[i] < 128 as char && word[i] as int != c
    ensures c !in Ascii(word)
  {}

  /** The field as servers write it: a header that says chunked. */
  lemma AsWritten()
    ensures var header := Ascii("Transfer-Encoding:") + Ascii(" ") + Ascii("chunked") + Ascii("\r\n\r\n");
            IsHeader(header) && SaysChunked(header)
  {
    var field, blank, word, end := Ascii("Transfer-Encoding:"), Ascii(" "), Ascii("chunked"), Ascii("\r\n\r\n");
    assert end == HEADER_END;
    NoneOf("Transfer-Encoding:", 0x0d);
    NoneOf("chunked", 0x0d);
    NoneOf(" ", 0x0d);
    NoneOf("Transfer-Encoding:", 0);
    NoneOf("chunked", 0);
    NoneOf(" ", 0);
    NoneOf("\r\n\r\n", 0);
    hide Find, SaysChunked, WordAt, Ascii;
    assert field + blank + word + end == [] + field + (blank + word + end);
    WordWritten([], "Transfer-Encoding:", blank + word + end);
    WordWritten(field + blank, "chunked", end);
    ChunkedMeans(field + blank + word + end);
    FindLast(field + blank + word, end);
  }

  /** A body of one chunk as a server may write it: a size with an extension behind it, the data, and the last chunk. */
  lemma BodyWritten()
    ensures var chunk, final := Chunk(Ascii("0b"), Ascii(";a=b"), Ascii("hello world")), Chunk(Ascii("0"), [], []);
            && WellFormed([chunk], final)
            && BodyText([chunk], final, Ascii("\r\n"))
               == Ascii("0b;a=b") + Ascii("\r\n") + Ascii("hello world") + Ascii("\r\n") + Ascii("0")
                + Ascii("\r\n") + Ascii("\r\n")
  {
    var chunk, final := Chunk(Ascii("0b"), Ascii(";a=b"), Ascii("hello world")), Chunk(Ascii("0"), [], []);
    NoneOf(";a=b", 0x0d);
    var end := Ascii("\r\n");
    assert end == [CR, LF];
    assert Ascii("0b;a=b") == Ascii("0b") + Ascii(";a=b");
    assert HexValue(Ascii("0b")[..1]) == HexOf(0x30) by { assert Ascii("0b")[..1][..0] == []; }
    assert HexValue(Ascii("0b")) == 11;
    assert HexValue(Ascii("0")) == 0 by { assert Ascii("0")[..0] == []; }
    assert ChunksText([chunk]) == ChunkText(chunk) by { assert [chunk][1..] == []; }
    hide Ascii, HexValue, ChunksText;
    assert Ascii("0") + [] == Ascii("0");
  }
}
