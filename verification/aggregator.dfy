/**
 * `get_source_url` (rs.py:100-117): a `news.google.com/.../articles/<token>`
 * link carries the article URL inside a base64url token. The decoded bytes
 * lose a fixed header and trailer, and the first remaining byte is read as a
 * length that picks the URL bytes out of the rest.
 *
 * The token is framed like a protobuf length-delimited field, but the code
 * reads only the first byte of the length: one-byte lengths (below 0x80)
 * come back whole, two-byte lengths come back cut short
 * (`DecodeTwoByteFrame`). The model keeps the code's reading.
 */
module Aggregator {
  import opened Results
  import opened Text
  import opened UrlParse

  /** An octet, as Python's `bytes` holds them. */
  newtype byte = x: int | 0 <= x < 0x100

  const Header: seq<byte> := [0x08, 0x13, 0x22]
  const Trailer: seq<byte> := [0xd2, 0x01, 0x00]
  const AggregatorHost := "news.google.com"
  const ArticlesSegment := "articles"

  function Min(a: int, b: int): int {
    if a < b then a else b
  }

  /** Python's `s[start:stop]` for non-negative bounds: out-of-range bounds are clamped. */
  function Slice<T>(s: seq<T>, start: nat, stop: nat): (r: seq<T>)
    ensures |r| == if start < Min(stop, |s|) then Min(stop, |s|) - start else 0
    ensures forall k :: 0 <= k < |r| ==> r[k] == s[start + k]
  {
    var hi := Min(stop, |s|);
    if start < hi then s[start..hi] else []
  }

  /** The header is dropped only when the bytes start with it. */
  function StripHeader(b: seq<byte>): (r: seq<byte>)
    ensures Header <= b ==> b == Header + r
    ensures !(Header <= b) ==> r == b
  {
    if Header <= b then b[|Header|..] else b
  }

  predicate EndsWith(b: seq<byte>, t: seq<byte>) {
    |t| <= |b| && b[|b| - |t|..] == t
  }

  /** The trailer is dropped only when the bytes end with it. */
  function StripTrailer(b: seq<byte>): (r: seq<byte>)
    ensures EndsWith(b, Trailer) ==> b == r + Trailer
    ensures !EndsWith(b, Trailer) ==> r == b
  {
    if EndsWith(b, Trailer) then b[..|b| - |Trailer|] else b
  }

  /**
   * The first byte `L` of the payload bounds the URL: bytes `[2, L+1)` when
   * `L >= 0x80`, `[1, L+1)` otherwise, clamped to the payload. An empty
   * payload has no first byte (`IndexError`).
   */
  function SelectUrl(p: seq<byte>): (r: Result<seq<byte>>)
    ensures r.Failure? <==> p == []
    ensures r.Failure? ==> r.error == EmptyPayload
    ensures r.Success? ==>
      var L := p[0] as int;
      var offset := if L >= 0x80 then 2 else 1;
      && |r.value| <= L
      && |r.value| == (if offset < Min(L + 1, |p|) then Min(L + 1, |p|) - offset else 0)
      && forall k :: 0 <= k < |r.value| ==> r.value[k] == p[offset + k]
  {
    if p == [] then Failure(EmptyPayload)
    else
      var length := p[0] as int;
      if length >= 0x80 then Success(Slice(p, 2, length + 1))
      else Success(Slice(p, 1, length + 1))
  }

  /**
   * The byte-level decode of rs.py:105-115 after base64: header, trailer,
   * then the length-selected slice. A success is a contiguous piece of the
   * decoded bytes no longer than 254 bytes.
   */
  function DecodePayload(decoded: seq<byte>): (r: Result<seq<byte>>)
    ensures r.Failure? <==> StripTrailer(StripHeader(decoded)) == []
    ensures r.Failure? ==> r.error == EmptyPayload
    ensures r.Success? ==> |r.value| < 255 && IsPieceOf(r.value, decoded)
  {
    SelectionIsPiece(decoded);
    SelectUrl(StripTrailer(StripHeader(decoded)))
  }

  lemma SelectionIsPiece(decoded: seq<byte>)
    ensures var r := SelectUrl(StripTrailer(StripHeader(decoded)));
      r.Success? ==> IsPieceOf(r.value, decoded)
  {
    var h := StripHeader(decoded);
    var p := StripTrailer(h);
    var r := SelectUrl(p);
    if r.Success? {
      var v := r.value;
      if v == [] {
        assert PieceAt(v, decoded, 0);
      } else {
        var offset := if p[0] >= 0x80 then 2 else 1;
        var start := |decoded| - |h| + offset;
        assert offset + |v| <= |p| <= |h|;
        forall k | 0 <= k < |v|
          ensures v[k] == decoded[start + k]
        {
          assert v[k] == p[offset + k] == h[offset + k];
        }
        assert decoded[start..start + |v|] == v;
        assert PieceAt(v, decoded, start);
      }
    }
  }

  /**
   * `bytes.decode('latin1')`: every byte becomes the character with the same
   * code, so the text holds only characters below 256 and encoding it back
   * gives the bytes again.
   */
  function Latin1(b: seq<byte>): (s: string)
    ensures |s| == |b|
    ensures IsLatin1(s)
    ensures Latin1Bytes(s) == b
  {
    var s := seq(|b|, k requires 0 <= k < |b| => (b[k] as int) as char);
    assert Latin1Bytes(s) == b;
    s
  }

  predicate IsLatin1(s: string) {
    forall k :: 0 <= k < |s| ==> s[k] as int < 0x100
  }

  /** `bytearray(s, 'latin1')` for text of characters below 256. */
  function Latin1Bytes(s: string): (b: seq<byte>)
    requires IsLatin1(s)
  {
    seq(|s|, k requires 0 <= k < |s| => s[k] as int as byte)
  }

  /** Decoding undoes encoding: text of characters below 256 survives the round trip. */
  lemma Latin1OfBytes(s: string)
    requires IsLatin1(s)
    ensures Latin1(Latin1Bytes(s)) == s
  {
    var t := Latin1(Latin1Bytes(s));
    assert forall k :: 0 <= k < |s| ==> t[k] == (s[k] as int as byte as int) as char;
  }

  /**
   * Reading rs.py:106-115 on bytes instead of on the decoded text is sound:
   * decoding is one to one, and it commutes with the prefix and suffix tests
   * and with slicing.
   */
  lemma Latin1Commutes(a: seq<byte>, b: seq<byte>, i: nat, j: nat)
    requires i <= j <= |b|
    ensures Latin1(a) == Latin1(b) ==> a == b
    ensures Latin1(a) <= Latin1(b) <==> a <= b
    ensures Latin1(b[i..j]) == Latin1(b)[i..j]
  {
    if Latin1(a) <= Latin1(b) {
      assert Latin1(b)[..|a|] == Latin1(a);
      assert Latin1(b[..|a|]) == Latin1(b)[..|a|];
      assert Latin1Bytes(Latin1(b[..|a|])) == b[..|a|];
    }
    if a <= b {
      assert b[..|a|] == a;
      assert forall k :: 0 <= k < |a| ==> Latin1(b)[k] == Latin1(a)[k];
    }
  }

  /**
   * The gate of rs.py:101-104: host `news.google.com` and a path whose
   * `/`-split has at least two pieces, the second-to-last being `articles`.
   * The token is the last piece, so the path ends with the whole segments
   * `articles/<token>`; the query and fragment are not part of the path, so
   * they never reach it.
   */
  function ArticleToken(p: Parts): (r: Option<string>)
    requires WellSplit(p)
    ensures r.Some? ==> '/' !in r.value && '?' !in r.value && '#' !in r.value
    ensures r.Some? ==> Hostname(p.netloc) == Some(AggregatorHost) && IsArticlePath(p.path, r.value)
  {
    var segments := Split(p.path, '/');
    if Hostname(p.netloc) == Some(AggregatorHost) && |segments| > 1
       && segments[|segments| - 2] == ArticlesSegment then
      var token := segments[|segments| - 1];
      TokenIsPathEnd(p.path, segments);
      Some(token)
    else
      None
  }

  /** The path is `articles/<token>`, or ends with the whole segments `/articles/<token>`. */
  predicate IsArticlePath(path: string, token: string) {
    EndsWithPieces(path, ArticlesSegment, token, '/')
  }

  lemma TokenIsPathEnd(path: string, segments: seq<string>)
    requires '?' !in path && '#' !in path
    requires segments == Split(path, '/') && |segments| > 1
    requires segments[|segments| - 2] == ArticlesSegment
    ensures var token := segments[|segments| - 1];
      '/' !in token && '?' !in token && '#' !in token && IsArticlePath(path, token)
  {
    SplitLastTwo(path, '/');
    LastPieceOf(path, '/');
  }

  /**
   * The converse of the gate: a `news.google.com` link whose path ends with
   * the segments `articles/<token>` yields that token.
   */
  lemma ArticleTokenOf(p: Parts, token: string)
    requires WellSplit(p) && Hostname(p.netloc) == Some(AggregatorHost)
    requires '/' !in token && IsArticlePath(p.path, token)
    ensures ArticleToken(p) == Some(token)
  {
    SplitOfLastTwo(p.path, ArticlesSegment, token, '/');
  }

  /**
   * `get_source_url`: anything but an aggregator article link comes back
   * unchanged. An article link comes back as a contiguous piece of its
   * token's decoded bytes, read as latin-1, or as an error: nothing catches
   * an unparsable netloc, a token base64 rejects, or an empty payload. A
   * token that decodes fails exactly when its payload is empty, and
   * otherwise yields the decoded URL bytes read as latin-1.
   */
  function GetSourceUrl(sourceUrl: string, base64: string -> Option<seq<byte>>): (r: Result<string>)
    ensures Urlparse(sourceUrl).Failure? ==> r == Failure(InvalidIpv6Url)
    ensures Urlparse(sourceUrl).Success? && !IsArticleLink(sourceUrl) ==> r == Success(sourceUrl)
    ensures IsArticleLink(sourceUrl) ==>
      var token := ArticleToken(Urlparse(sourceUrl).value).value;
      && (base64(token + "==").None? ==> r == Failure(InvalidBase64))
      && (base64(token + "==").Some? ==>
            var b := base64(token + "==").value;
            && (r == Failure(EmptyPayload) <==> StripTrailer(StripHeader(b)) == [])
            && (r.Success? ==> DecodePayload(b).Success? && r.value == Latin1(DecodePayload(b).value)))
      && (r.Failure? ==> r.error == InvalidBase64 || r.error == EmptyPayload)
      && (r.Success? ==>
            && base64(token + "==").Some?
            && |r.value| < 255
            && exists b :: IsPieceOf(b, base64(token + "==").value) && r.value == Latin1(b))
  {
    var p :- Urlparse(sourceUrl);
    match ArticleToken(p)
    case None => Success(sourceUrl)
    case Some(token) =>
      match base64(token + "==")
      case None => Failure(InvalidBase64)
      case Some(bytes) =>
        var url :- DecodePayload(bytes);
        assert IsPieceOf(url, bytes);
        Success(Latin1(url))
  }

  /** `b` occurs contiguously in `whole`. */
  ghost predicate IsPieceOf(b: seq<byte>, whole: seq<byte>) {
    exists i :: PieceAt(b, whole, i)
  }

  predicate PieceAt(b: seq<byte>, whole: seq<byte>, i: int) {
    0 <= i && i + |b| <= |whole| && whole[i..i + |b|] == b
  }

  predicate IsArticleLink(url: string) {
    Urlparse(url).Success? && ArticleToken(Urlparse(url).value).Some?
  }

  /** Protobuf varint of a length below 2^14: one byte below 0x80, else two. */
  function Varint(n: nat): (b: seq<byte>)
    requires n < 0x4000
  {
    if n < 0x80 then [n as byte] else [(n % 0x80 + 0x80) as byte, (n / 0x80) as byte]
  }

  /** The framing the aggregator wraps around an article URL. */
  function Frame(url: seq<byte>): seq<byte>
    requires |url| < 0x4000
  {
    Header + Varint(|url|) + url + Trailer
  }

  lemma DecodeFrame(url: seq<byte>)
    requires |url| < 0x4000
    ensures DecodePayload(Frame(url)) == SelectUrl(Varint(|url|) + url)
  {
    var f := Frame(url);
    var body := Varint(|url|) + url;
    assert f == Header + (body + Trailer);
    assert StripHeader(f) == body + Trailer;
    assert EndsWith(body + Trailer, Trailer);
    assert StripTrailer(body + Trailer) == body;
  }

  /** A URL shorter than 0x80 bytes comes back whole from its frame. */
  lemma DecodeOneByteFrame(url: seq<byte>)
    requires |url| < 0x80
    ensures DecodePayload(Frame(url)) == Success(url)
  {
    DecodeFrame(url);
    SelectOneByte(url);
  }

  lemma SelectOneByte(url: seq<byte>)
    requires |url| < 0x80
    ensures SelectUrl(Varint(|url|) + url) == Success(url)
  {
    assert Varint(|url|) == [|url| as byte];
    var p := [|url| as byte] + url;
    assert p[0] as int == |url|;
    assert Min(|url| + 1, |p|) == |url| + 1;
    assert Slice(p, 1, |url| + 1) == url;
  }

  /**
   * A URL of 0x80 bytes or more comes back cut to its first
   * `|url| % 0x80 + 0x7f` bytes: the code takes the low varint byte for the
   * whole length. For 0x80..0xff bytes that drops exactly the last byte.
   */
  lemma DecodeTwoByteFrame(url: seq<byte>)
    requires 0x80 <= |url| < 0x4000
    ensures DecodePayload(Frame(url)) == Success(url[..|url| % 0x80 + 0x7f])
    ensures |url| < 0x100 ==> DecodePayload(Frame(url)) == Success(url[..|url| - 1])
  {
    DecodeFrame(url);
    SelectTwoByte(url);
  }

  lemma SelectTwoByte(url: seq<byte>)
    requires 0x80 <= |url| < 0x4000
    ensures SelectUrl(Varint(|url|) + url) == Success(url[..|url| % 0x80 + 0x7f])
  {
    var v := Varint(|url|);
    var L := |url| % 0x80 + 0x80;
    assert |v| == 2 && v[0] as int == L;
    var p := v + url;
    assert p[0] as int == L;
    assert Min(L + 1, |p|) == L + 1;
    assert Slice(p, 2, L + 1) == url[..L - 1];
  }

  /**
   * End to end: an article link whose token decodes to a frame around a
   * URL shorter than 0x80 bytes yields that URL.
   */
  lemma ArticleLinkRoundTrip(sourceUrl: string, base64: string -> Option<seq<byte>>, url: seq<byte>)
    requires IsArticleLink(sourceUrl)
    requires |url| < 0x80
    requires base64(ArticleToken(Urlparse(sourceUrl).value).value + "==") == Some(Frame(url))
    ensures GetSourceUrl(sourceUrl, base64) == Success(Latin1(url))
  {
    DecodeOneByteFrame(url);
  }
}
