/** The audio decoding of the plugin, `base64ToBlob` in plugin/lib/voxidian.ts:
    the data-URL prefix is dropped, and the decoded characters are cut into
    slices of at most 512, each turned into a byte array. Base64 decoding
    (`atob`) is not modelled: the payload's characters stand for the decoded
    ones. */
module Blob {
  import opened Strings

  /** An element of a `Uint8Array`. */
  newtype Byte = x: int | 0 <= x < 256

  const SliceSize := 512

  // ---------------------------------------------------------------------
  // The data-URL prefix (plugin/lib/voxidian.ts:107)

  /** `base64.includes(',') ? base64.split(',')[1] : base64`: the text between
      the first comma and the next one (or the end) when there is a comma, and
      the whole input otherwise. */
  function DataUrlPayload(s: string): (r: string)
    ensures ',' !in s ==> r == s
    ensures ',' in s ==>
      var i := IndexOf(s, ',');
      && ',' !in r
      && i + 1 + |r| <= |s|
      && s[i + 1..i + 1 + |r|] == r
      && (i + 1 + |r| == |s| || s[i + 1 + |r|] == ',')
  {
    if ',' !in s then s
    else
      var i := IndexOf(s, ',');
      var r := FirstSegment(s[i + 1..]);
      SegmentWithin(s, i + 1, r);
      r
  }

  /** The comma-free text before the first comma of `t`, or all of `t`. */
  function FirstSegment(t: string): (r: string)
    ensures ',' !in r
    ensures |r| <= |t| && t[..|r|] == r
    ensures |r| == |t| || t[|r|] == ','
  {
    if ',' in t then t[..IndexOf(t, ',')] else t
  }

  /** A segment found in the suffix from `k` lies in `s` from `k`. */
  lemma SegmentWithin(s: string, k: nat, r: string)
    requires k <= |s|
    requires |r| <= |s| - k && s[k..][..|r|] == r
    requires |r| == |s| - k || s[k..][|r|] == ','
    ensures k + |r| <= |s| && s[k..k + |r|] == r
    ensures k + |r| == |s| || s[k + |r|] == ','
  {
    assert s[k..][..|r|] == s[k..k + |r|];
  }

  /** A data URL's payload is recovered from it whatever follows a second
      comma, and a bare payload is kept as it is. */
  lemma DataUrlRoundTrip(header: string, payload: string, trailer: string)
    requires ',' !in header && ',' !in payload
    ensures DataUrlPayload(header + "," + payload) == payload
    ensures DataUrlPayload(header + "," + payload + "," + trailer) == payload
    ensures DataUrlPayload(payload) == payload
  {
    PayloadAtEnd(header, payload);
    PayloadBeforeComma(header, payload, trailer);
  }

  lemma PayloadAtEnd(header: string, payload: string)
    requires ',' !in header && ',' !in payload
    ensures DataUrlPayload(header + "," + payload) == payload
  {
    var s := header + "," + payload;
    assert s[|header|] == ',';
    assert s[..|header|] == header;
    CommaAt(s, header);
    assert s[|header| + 1..] == payload;
    SegmentUnique(s[|header| + 1..], payload, DataUrlPayload(s));
  }

  lemma PayloadBeforeComma(header: string, payload: string, trailer: string)
    requires ',' !in header && ',' !in payload
    ensures DataUrlPayload(header + "," + payload + "," + trailer) == payload
  {
    var s := header + "," + payload + "," + trailer;
    assert s[|header|] == ',';
    assert s[..|header|] == header;
    CommaAt(s, header);
    assert s[|header| + 1..|header| + 1 + |payload| + 1] == payload + ",";
    SegmentUnique(s[|header| + 1..], payload, DataUrlPayload(s));
  }

  /** The first comma sits right after a comma-free header. */
  lemma CommaAt(s: string, header: string)
    requires |header| < |s| && s[|header|] == ',' && s[..|header|] == header && ',' !in header
    ensures ',' in s && IndexOf(s, ',') == |header|
  {
    var i := IndexOf(s, ',');
    assert forall k :: 0 <= k < |header| ==> s[k] == header[k];
    assert forall k :: 0 <= k < i ==> s[..i][k] == s[k];
  }

  /** A comma-free segment ending at a comma or at the end is the only such
      prefix. */
  lemma SegmentUnique(t: string, a: string, b: string)
    requires ',' !in a && ',' !in b
    requires |a| <= |t| && t[..|a|] == a && (|a| == |t| || t[|a|] == ',')
    requires |b| <= |t| && t[..|b|] == b && (|b| == |t| || t[|b|] == ',')
    ensures a == b
  {
    assert forall k :: 0 <= k < |a| ==> t[k] == a[k];
    assert forall k :: 0 <= k < |b| ==> t[k] == b[k];
  }

  // ---------------------------------------------------------------------
  // Slicing into byte arrays (plugin/lib/voxidian.ts:109-122)

  /** `new Uint8Array([c.charCodeAt(0)])`: the code unit reduced modulo 256. */
  function ToByte(c: char): Byte {
    ((c as int) % 256) as Byte
  }

  function Bytes(s: string): (r: seq<Byte>)
    ensures |r| == |s|
    ensures forall i :: 0 <= i < |s| ==> r[i] == ToByte(s[i])
  {
    seq(|s|, i requires 0 <= i < |s| => ToByte(s[i]))
  }

  function Flatten(chunks: seq<seq<Byte>>): seq<Byte> {
    if |chunks| == 0 then [] else Flatten(chunks[..|chunks| - 1]) + chunks[|chunks| - 1]
  }

  function Min(a: int, b: int): int {
    if a <= b then a else b
  }

  /** The `k`-th slice, as bytes. */
  function SliceAt(chars: string, k: nat): seq<Byte>
    requires k * SliceSize < |chars|
  {
    Bytes(chars[k * SliceSize..Min(k * SliceSize + SliceSize, |chars|)])
  }

  lemma SliceAtSize(chars: string, k: nat)
    requires k * SliceSize < |chars|
    ensures 1 <= |SliceAt(chars, k)| <= SliceSize
    ensures k * SliceSize + SliceSize <= |chars| ==> |SliceAt(chars, k)| == SliceSize
  {
  }

  /** The number of slices is the length divided by 512, rounded up. */
  lemma SliceCount(n: nat, c: nat)
    requires (c == 0 && n == 0) || (0 < c && (c - 1) * SliceSize < n <= c * SliceSize)
    ensures c == (n + SliceSize - 1) / SliceSize
  {
  }

  /** `base64ToBlob(base64, mimeType)`: the payload's characters in slices of
      512 (the last one shorter), each slice as bytes. */
  method Base64ToBlob(base64: string) returns (chunks: seq<seq<Byte>>)
    ensures var chars := DataUrlPayload(base64);
      && |chunks| == (|chars| + SliceSize - 1) / SliceSize
      && (forall k :: 0 <= k < |chunks| ==> k * SliceSize < |chars| && chunks[k] == SliceAt(chars, k))
      && (forall k :: 0 <= k < |chunks| ==> 1 <= |chunks[k]| <= SliceSize)
      && (forall k :: 0 <= k < |chunks| - 1 ==> |chunks[k]| == SliceSize)
      && Flatten(chunks) == Bytes(chars)
  {
    var chars := DataUrlPayload(base64);
    var n := |chars|;
    chunks := [];
    var offset := 0;
    while offset < n
      invariant offset == |chunks| * SliceSize
      invariant |chunks| == 0 || (|chunks| - 1) * SliceSize < n
      invariant forall k :: 0 <= k < |chunks| ==> k * SliceSize < n && chunks[k] == SliceAt(chars, k)
      invariant Flatten(chunks) == Bytes(chars[..Min(offset, n)])
      decreases n - offset
    {
      var end := Min(offset + SliceSize, n);
      var bytes := SliceBytes(chars[offset..end]);
      assert chars[..Min(offset, n)] == chars[..offset];
      NextSlice(chars, offset, Flatten(chunks), bytes);
      FlattenSnoc(chunks, bytes);
      SlicesExtend(chars, chunks, bytes);
      chunks := chunks + [bytes];
      offset := offset + SliceSize;
    }
    assert chars[..Min(offset, n)] == chars;
    SlicesComplete(chars, chunks);
  }

  /** Appending the next slice keeps every chunk equal to its slice. */
  lemma SlicesExtend(chars: string, chunks: seq<seq<Byte>>, bytes: seq<Byte>)
    requires |chunks| * SliceSize < |chars|
    requires forall k :: 0 <= k < |chunks| ==> k * SliceSize < |chars| && chunks[k] == SliceAt(chars, k)
    requires bytes == SliceAt(chars, |chunks|)
    ensures forall k :: 0 <= k < |chunks| + 1 ==>
      k * SliceSize < |chars| && (chunks + [bytes])[k] == SliceAt(chars, k)
  {
    forall k | 0 <= k < |chunks| + 1
      ensures k * SliceSize < |chars| && (chunks + [bytes])[k] == SliceAt(chars, k)
    {
      if k < |chunks| {
        assert (chunks + [bytes])[k] == chunks[k];
      }
    }
  }

  /** The loop over one slice: `byteNumbers[i] = slice.charCodeAt(i)`. */
  method SliceBytes(slice: string) returns (bytes: seq<Byte>)
    ensures bytes == Bytes(slice)
  {
    bytes := [];
    var i := 0;
    while i < |slice|
      invariant 0 <= i <= |slice|
      invariant bytes == Bytes(slice[..i])
    {
      bytes := bytes + [ToByte(slice[i])];
      i := i + 1;
    }
    assert slice[..i] == slice;
  }

  /** Once every slice is taken, their count is the rounded-up quotient and all
      but the last are full. */
  lemma SlicesComplete(chars: string, chunks: seq<seq<Byte>>)
    requires |chunks| * SliceSize >= |chars|
    requires |chunks| == 0 || (|chunks| - 1) * SliceSize < |chars|
    requires forall k :: 0 <= k < |chunks| ==> k * SliceSize < |chars| && chunks[k] == SliceAt(chars, k)
    ensures |chunks| == (|chars| + SliceSize - 1) / SliceSize
    ensures forall k :: 0 <= k < |chunks| ==> 1 <= |chunks[k]| <= SliceSize
    ensures forall k :: 0 <= k < |chunks| - 1 ==> |chunks[k]| == SliceSize
  {
    SliceCount(|chars|, |chunks|);
    forall k | 0 <= k < |chunks|
      ensures 1 <= |chunks[k]| <= SliceSize
      ensures k < |chunks| - 1 ==> |chunks[k]| == SliceSize
    {
      SliceAtSize(chars, k);
    }
  }

  /** Appending the next slice extends the flattened prefix by that slice. */
  lemma NextSlice(chars: string, offset: nat, flat: seq<Byte>, bytes: seq<Byte>)
    requires offset < |chars|
    requires flat == Bytes(chars[..offset])
    requires bytes == Bytes(chars[offset..Min(offset + SliceSize, |chars|)])
    ensures flat + bytes == Bytes(chars[..Min(offset + SliceSize, |chars|)])
  {
    BytesOfPrefix(chars, offset, Min(offset + SliceSize, |chars|));
  }

  lemma BytesOfPrefix(chars: string, offset: nat, end: nat)
    requires offset <= end <= |chars|
    ensures Bytes(chars[..end]) == Bytes(chars[..offset]) + Bytes(chars[offset..end])
  {
    assert chars[..end] == chars[..offset] + chars[offset..end];
    BytesConcat(chars[..offset], chars[offset..end]);
  }

  lemma FlattenSnoc(chunks: seq<seq<Byte>>, c: seq<Byte>)
    ensures Flatten(chunks + [c]) == Flatten(chunks) + c
  {
    assert (chunks + [c])[..|chunks|] == chunks;
  }

  lemma BytesConcat(a: string, b: string)
    ensures Bytes(a + b) == Bytes(a) + Bytes(b)
  {
  }
}
