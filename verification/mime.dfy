/**
 * The vocabulary shared by the parsers in app/models and maildir: bytes,
 * header maps, and the library parsers they call (`mime.ParseMediaType`,
 * `multipart.Reader.NextPart`) given as oracles.
 */
module Mime {
  import opened Wrappers

  newtype byte = x: int | 0 <= x < 256

  /** A header field's values; `net/textproto` never stores a key without one. */
  type Values = v: seq<string> | |v| > 0 witness [""]

  /** `mail.Header` / `textproto.MIMEHeader`, keys already in canonical form. */
  type Header = map<string, Values>

  /** `Header.Get`: the first value of `key`, or "" when absent. */
  function Get(h: Header, key: string): string
  {
    if key in h then h[key][0] else ""
  }

  /** What `mime.ParseMediaType` returns on success. */
  datatype MediaType = MediaType(mediaType: string, params: map<string, string>)

  /** `mime.ParseMediaType`, left abstract. */
  type MediaParser = string -> Result<MediaType>

  /**
   * One part handed out by `NextPart`: its header block and its body bytes.
   * A `*multipart.Part` reads from the stream it was split from, so its bytes
   * can be read only until the next `NextPart` call.
   */
  datatype Part = Part(header: Header, body: seq<byte>)

  /**
   * A part once `NextPart` has moved past it: that call first closes the
   * current part, reading it through, so only its header is left to read.
   */
  function Drained(p: Part): Part
  {
    Part(p.header, [])
  }

  /**
   * Everything `NextPart` yields on one body: the parts returned before the
   * stream ended, and `failure` = Some(e) when the call after the last part
   * returned an error `e` other than `io.EOF`.
   */
  datatype SplitResult = SplitResult(parts: seq<Part>, failure: Option<string>)

  /** Every part of a split body lies strictly inside that body (its delimiter line takes space). */
  ghost predicate PartsWithin(body: seq<byte>, s: SplitResult)
  {
    forall p <- s.parts :: |p.body| < |body|
  }

  /** `multipart.NewReader(body, boundary)` drained by `NextPart`, left abstract. */
  type Splitter = f: (seq<byte>, string) -> SplitResult | forall body, boundary :: PartsWithin(body, f(body, boundary))
    witness (body: seq<byte>, boundary: string) => SplitResult([], None)

  /** The outcome of the k-th `NextPart` call (k counted from 0). */
  datatype Next = NextPart(part: Part) | EndOfParts | NextFailed(error: string)

  function NextPartAt(s: SplitResult, k: nat): (n: Next)
    ensures k < |s.parts| <==> n.NextPart?
    ensures n.NextFailed? <==> k >= |s.parts| && s.failure.Some?
  {
    if k < |s.parts| then NextPart(s.parts[k])
    else if s.failure.Some? then NextFailed(s.failure.value)
    else EndOfParts
  }

  /**
   * The slice the loop `for err = nil; err != io.EOF; part, err = NextPart()`
   * builds, starting from `prefill` nil entries: the first pass appends the
   * still-nil `part`, so one more nil precedes the parts proper. Every part
   * appended is followed by another `NextPart` call, so the slice holds each
   * part drained: its header, and no bytes left to read.
   */
  function Collected(s: SplitResult, prefill: nat): (r: Result<seq<Option<Part>>>)
    ensures s.failure.Some? <==> r.Err?
    ensures r.Ok? ==> |r.value| == prefill + 1 + |s.parts|
    ensures r.Ok? ==> forall i :: 0 <= i <= prefill ==> r.value[i] == None
    ensures r.Ok? ==> forall k :: 0 <= k < |s.parts| ==> r.value[prefill + 1 + k] == Some(Drained(s.parts[k]))
    ensures r.Ok? ==> forall p <- r.value :: p.Some? ==> p.value.body == []
  {
    if s.failure.Some? then Err(s.failure.value)
    else Ok(seq(prefill + 1, _ => None) + seq(|s.parts|, k requires 0 <= k < |s.parts| => Some(Drained(s.parts[k]))))
  }

  /** The collecting loop itself, one `NextPart` call per iteration. */
  method CollectParts(s: SplitResult, prefill: nat) returns (r: Result<seq<Option<Part>>>)
    ensures r == Collected(s, prefill)
  {
    var parts: seq<Option<Part>> := seq(prefill, _ => None);
    var part: Option<Part> := None;
    var next: Next := NextPart(Part(map[], []));  // stands for err == nil on entry
    var k: nat := 0;
    while !next.EndOfParts?
      invariant k <= |s.parts| + 1
      invariant next.EndOfParts? ==> k == |s.parts| + 1 && s.failure.None?
      invariant next.NextFailed? ==> k == |s.parts| + 1 && s.failure == Some(next.error)
      invariant next.NextPart? ==> (k == 0 && part == None) || (0 < k <= |s.parts| && part == Some(s.parts[k - 1]))
      invariant |parts| == prefill + k
      invariant forall i :: 0 <= i < prefill ==> parts[i] == None
      invariant k > 0 ==> parts[prefill] == None
      invariant forall j :: prefill < j < prefill + k ==> parts[j] == Some(Drained(s.parts[j - prefill - 1]))
      decreases |s.parts| + 1 - k, if next.NextFailed? then 0 else 1
    {
      if next.NextFailed? {
        return Err(next.error);
      }
      // the `NextPart` call that follows closes `part`, reading it through
      parts := parts + [if part.Some? then Some(Drained(part.value)) else None];
      next := NextPartAt(s, k);
      part := if next.NextPart? then Some(next.part) else None;
      k := k + 1;
    }
    r := Ok(parts);
    assert parts == Collected(s, prefill).value;
  }
}
