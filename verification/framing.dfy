/**
 * Byte framing of the HTTP stream: each JPEG is wrapped as one body part of a
 * `multipart/x-mixed-replace` response whose boundary is `frame`, in the
 * boundary-delimiter form of section 5.1.1 of RFC 2046. A part is the line
 * "--frame", a `Content-Type: image/jpeg` header, a blank line, the JPEG
 * bytes and a line break; the stream body is the parts back to back, so each
 * part's trailing line break and the next part's "--frame" together form the
 * delimiter CRLF "--frame".
 */
module Framing {
  import opened Wrappers

  newtype byte = x: int | 0 <= x < 256

  /** The bytes of an ASCII / Latin-1 string. */
  function Ascii(s: string): seq<byte>
    requires forall i :: 0 <= i < |s| ==> s[i] as int < 256
  {
    seq(|s|, i requires 0 <= i < |s| => s[i] as int as byte)
  }

  /** The boundary parameter of the stream's content type. */
  const Boundary := "frame"

  /** Content type of the `/stream` response; its boundary is the one each part opens with. */
  const StreamMimeType := "multipart/x-mixed-replace; boundary=" + Boundary

  const Crlf: seq<byte> := Ascii("\r\n")

  /** Everything a part carries before its JPEG bytes. */
  const PartHead: seq<byte> := Ascii("--" + Boundary + "\r\n" + "Content-Type: image/jpeg\r\n\r\n")

  /** What ends one part's payload: CR LF "--" boundary. */
  const Delimiter: seq<byte> := Ascii("\r\n--" + Boundary)

  lemma FramingBytes()
    ensures Crlf == [13, 10]
    ensures Delimiter == [13, 10, 45, 45, 102, 114, 97, 109, 101]
    ensures |PartHead| == 37
    ensures PartHead[..7] == Delimiter[2..]
  {
  }

  lemma FramingLengths()
    ensures |Crlf| == 2 && |PartHead| == 37 && |Delimiter| == 9
  {
    FramingBytes();
  }

  /**
   * The chunk the generator yields for one encoded frame: the dash-boundary
   * line "--frame" CRLF, the header and blank line, the JPEG intact, then CRLF.
   */
  function Chunk(jpeg: seq<byte>): (c: seq<byte>)
    ensures |c| == |PartHead| + |jpeg| + |Crlf|
    ensures c[..|PartHead|] == PartHead
    ensures c[|PartHead|..|c| - |Crlf|] == jpeg
    ensures c[|c| - |Crlf|..] == Crlf
  {
    PartHead + jpeg + Crlf
  }

  /** Strips the fixed head and trailing line break off one chunk; fails on anything else. */
  function Unframe(c: seq<byte>): (r: Option<seq<byte>>)
    ensures r.Some? ==> Chunk(r.value) == c
    ensures forall jpeg :: Chunk(jpeg) == c ==> r == Some(jpeg)
  {
    FramingBytes();
    if |c| >= |PartHead| + 2 && c[..|PartHead|] == PartHead && c[|c| - 2..] == Crlf then
      var jpeg := c[|PartHead|..|c| - 2];
      assert c == PartHead + jpeg + Crlf;
      Some(jpeg)
    else
      None
  }

  /** Unframing a chunk gives back the JPEG bytes it was made from. */
  lemma UnframeChunk(jpeg: seq<byte>)
    ensures Unframe(Chunk(jpeg)) == Some(jpeg)
  {
  }

  /** The response body: the chunks of `jpegs`, in order, back to back. */
  function Body(jpegs: seq<seq<byte>>): seq<byte>
  {
    if jpegs == [] then [] else Chunk(jpegs[0]) + Body(jpegs[1..])
  }

  /** The delimiter occurs in `s` starting at position `k`. */
  predicate DelimiterAt(s: seq<byte>, k: int)
  {
    0 <= k && k + |Delimiter| <= |s| && s[k..k + |Delimiter|] == Delimiter
  }

  /** RFC 2046 requires the delimiter not to occur inside a part. */
  predicate NoDelimiter(s: seq<byte>)
  {
    forall k :: 0 <= k < |s| ==> !DelimiterAt(s, k)
  }

  /** The first occurrence of the delimiter in `s` at or after `from`, if any. */
  function FindDelimiter(s: seq<byte>, from: nat): (r: Option<nat>)
    ensures r.Some? ==> from <= r.value && DelimiterAt(s, r.value)
    ensures r.Some? ==> forall k :: from <= k < r.value ==> !DelimiterAt(s, k)
    ensures r.None? ==> forall k :: from <= k ==> !DelimiterAt(s, k)
    decreases |s| - from
  {
    if from + |Delimiter| > |s| then None
    else if s[from..from + |Delimiter|] == Delimiter then Some(from)
    else FindDelimiter(s, from + 1)
  }

  /**
   * A consumer's reading of a body: each part must open with exactly the head
   * this generator writes, and its payload runs up to the next delimiter, or up
   * to the final line break when no delimiter follows. It reads this
   * producer's output only; it is not a general multipart parser, which would
   * accept any part headers.
   */
  function SplitBody(s: seq<byte>): Option<seq<seq<byte>>>
    decreases |s|
  {
    if s == [] then Some([])
    else if |s| < |PartHead| || s[..|PartHead|] != PartHead then None
    else
      var rest := s[|PartHead|..];
      match FindDelimiter(rest, 0)
      case Some(i) =>
        (match SplitBody(rest[i + 2..])
         case Some(tail) => Some([rest[..i]] + tail)
         case None => None)
      case None =>
        if |rest| >= 2 && rest[|rest| - 2..] == Crlf then Some([rest[..|rest| - 2]]) else None
  }

  /**
   * A delimiter cannot start inside a delimiter-free payload that is followed
   * by a line break: it would have to cover the CR, which only its first byte is.
   */
  lemma NoDelimiterBeforeEnd(jpeg: seq<byte>, tail: seq<byte>)
    requires NoDelimiter(jpeg)
    requires |tail| >= 1 && tail[0] == 13
    ensures forall k :: 0 <= k < |jpeg| ==> !DelimiterAt(jpeg + tail, k)
  {
    FramingBytes();
    var s := jpeg + tail;
    forall k | 0 <= k < |jpeg|
      ensures !DelimiterAt(s, k)
    {
      if k + |Delimiter| <= |jpeg| {
        assert s[k..k + |Delimiter|] == jpeg[k..k + |Delimiter|];
        assert !DelimiterAt(jpeg, k);
      } else if k + |Delimiter| <= |s| {
        var m := |jpeg| - k;
        assert 1 <= m < |Delimiter|;
        assert s[|jpeg|] == tail[0] == 13;
        assert s[k..k + |Delimiter|][m] == s[k + m];
        assert Delimiter[m] != 13;
      }
    }
  }

  /** The last part of a body: no delimiter follows, so the payload runs to the final line break. */
  lemma SplitLastPart(jpeg: seq<byte>)
    requires NoDelimiter(jpeg)
    ensures SplitBody(Chunk(jpeg)) == Some([jpeg])
  {
    FramingBytes();
    var s := Chunk(jpeg);
    assert s[..|PartHead|] == PartHead;
    var rest := s[|PartHead|..];
    assert rest == jpeg + Crlf;
    NoDelimiterBeforeEnd(jpeg, Crlf);
    assert FindDelimiter(rest, 0).None?;
    assert rest[..|rest| - 2] == jpeg;
  }

  /** The line break ending a payload and the "--frame" opening the next part form a delimiter. */
  lemma DelimiterOpensNextPart(jpeg: seq<byte>, more: seq<byte>)
    requires |more| >= |PartHead| && more[..|PartHead|] == PartHead
    ensures DelimiterAt(jpeg + (Crlf + more), |jpeg|)
  {
    FramingBytes();
    var rest := jpeg + (Crlf + more);
    assert rest[|jpeg|..|jpeg| + |Delimiter|] == Crlf + more[..7];
  }

  /** Scanning a payload followed by the next part finds the delimiter right after the payload. */
  lemma DelimiterAfterPayload(jpeg: seq<byte>, more: seq<byte>)
    requires NoDelimiter(jpeg)
    requires |more| >= |PartHead| && more[..|PartHead|] == PartHead
    ensures FindDelimiter(jpeg + (Crlf + more), 0) == Some(|jpeg|)
  {
    var rest := jpeg + (Crlf + more);
    assert (Crlf + more)[0] == 13 by { FramingBytes(); }
    NoDelimiterBeforeEnd(jpeg, Crlf + more);
    DelimiterOpensNextPart(jpeg, more);
  }

  /** A part followed by another: its payload ends at the delimiter the next part opens. */
  lemma SplitFirstPart(jpeg: seq<byte>, more: seq<byte>)
    requires NoDelimiter(jpeg)
    requires |more| >= |PartHead| && more[..|PartHead|] == PartHead
    ensures SplitBody(more).Some? ==> SplitBody(Chunk(jpeg) + more) == Some([jpeg] + SplitBody(more).value)
  {
    FramingLengths();
    var s := Chunk(jpeg) + more;
    assert s == PartHead + (jpeg + (Crlf + more));
    assert s[..|PartHead|] == PartHead;
    var rest := s[|PartHead|..];
    assert rest == jpeg + (Crlf + more);
    DelimiterAfterPayload(jpeg, more);
    assert rest[..|jpeg|] == jpeg;
    assert rest[|jpeg| + 2..] == more;
  }

  /**
   * Round trip of the whole stream: a consumer splitting the body at the
   * delimiters gets back every JPEG, in order, provided none contains the
   * delimiter.
   */
  lemma {:induction false} SplitBodyRoundTrip(jpegs: seq<seq<byte>>)
    requires forall k :: 0 <= k < |jpegs| ==> NoDelimiter(jpegs[k])
    ensures SplitBody(Body(jpegs)) == Some(jpegs)
    decreases |jpegs|
  {
    if jpegs != [] {
      FramingLengths();
      var more := Body(jpegs[1..]);
      if jpegs[1..] == [] {
        assert Body(jpegs) == Chunk(jpegs[0]) + [];
        assert Body(jpegs) == Chunk(jpegs[0]);
        SplitLastPart(jpegs[0]);
        assert [jpegs[0]] == jpegs;
      } else {
        SplitBodyRoundTrip(jpegs[1..]);
        assert more == PartHead + (jpegs[1] + Crlf) + Body(jpegs[1..][1..]);
        SplitFirstPart(jpegs[0], more);
        assert [jpegs[0]] + jpegs[1..] == jpegs;
      }
    }
  }
}
