/** Bucket identifiers (buckets/util.go): the canonical byte encoding of a
    nested bucket path, and the SQL table-name candidates derived from it.

    A path [s1, ..., sn] is encoded as WriteVarBytes(s1) ++ ... ++
    WriteVarBytes(sn). A candidate name is "bkt", then "-" and the escaped
    bytes of every segment, cut so that it fits in 60 characters together
    with an optional "-u<hex>" disambiguator. The escape keeps ASCII digits
    and letters and turns every other byte into "_", so distinct paths can
    share a candidate; the catalog resolves that with the disambiguator. */
module BucketIds {
  import opened Common
  import opened CompactSize

  /** Longest segment the table-name encoder reads back. */
  const MaxSegment: nat := 1000

  /** Identifier budget of a generated table name. */
  const MaxNameLength: nat := 60

  /** Largest value of Go's `int`, the type of the disambiguator. */
  const MaxInt: nat := 0x7fff_ffff_ffff_ffff

  // ---------------------------------------------------------------------
  // Encoding paths

  /** `mkRootBucketId`: the id of the top-level bucket `path`, which is the
      CompactSize length of `path` followed by its bytes; it reads back as
      exactly that one segment. */
  function MkRootBucketId(path: Segment): (id: Bytes)
    ensures |id| > |path| && id[|id| - |path|..] == path
    ensures ReadVarBytes(id, |path|) == Ok((path, []))
  {
    ReadWriteVarBytes(path, [], |path|);
    assert WriteVarBytes(path) + [] == WriteVarBytes(path);
    WriteVarBytes(path)
  }

  /** The id of a whole path: every segment length-prefixed, in order. */
  function Encode(path: seq<Segment>): (id: Bytes)
    ensures |id| >= |path|
  {
    if path == [] then [] else MkRootBucketId(path[0]) + Encode(path[1..])
  }

  /** `bucketId.withAppended`: the id of the child `buf` of the bucket whose
      id is `id`. The receiver's bytes come first, unchanged. */
  function WithAppended(id: Bytes, buf: Segment): (child: Bytes)
    ensures |child| > |id| && child[..|id|] == id
    ensures child[|id|..] == MkRootBucketId(buf)
  {
    id + MkRootBucketId(buf)
  }

  lemma {:induction false} EncodeAppend(path: seq<Segment>, s: Segment)
    ensures Encode(path + [s]) == Encode(path) + MkRootBucketId(s)
  {
    if path == [] {
      assert [] + [s] == [s];
      assert Encode([s][1..]) == [];
    } else {
      assert (path + [s])[0] == path[0];
      assert (path + [s])[1..] == path[1..] + [s];
      EncodeAppend(path[1..], s);
    }
  }

  /** Appending a segment to the id of a path gives the id of the extended
      path, so ids built by `WithAppended` from a root id are path ids. */
  lemma WithAppendedEncodes(path: seq<Segment>, s: Segment)
    ensures WithAppended(Encode(path), s) == Encode(path + [s])
  {
    EncodeAppend(path, s);
  }

  /** Distinct paths have distinct ids, even when one is a prefix of the
      other or segments are empty. */
  lemma {:induction false} EncodeInjective(p: seq<Segment>, q: seq<Segment>)
    requires Encode(p) == Encode(q)
    ensures p == q
  {
    if p == [] || q == [] {
      assert p == [] && q == [] by {
        assert p != [] ==> |Encode(p)| > 0;
        assert q != [] ==> |Encode(q)| > 0;
      }
    } else {
      SameHead(p, q);
      EncodeInjective(p[1..], q[1..]);
      assert p == [p[0]] + p[1..] && q == [q[0]] + q[1..];
    }
  }

  /** Equal ids of non-empty paths start with the same segment, and the ids
      of the remaining segments are equal too. */
  lemma SameHead(p: seq<Segment>, q: seq<Segment>)
    requires p != [] && q != [] && Encode(p) == Encode(q)
    ensures p[0] == q[0] && Encode(p[1..]) == Encode(q[1..])
  {
    var m := if |p[0]| < |q[0]| then |q[0]| else |p[0]|;
    ReadWriteVarBytes(p[0], Encode(p[1..]), m);
    ReadWriteVarBytes(q[0], Encode(q[1..]), m);
    assert Encode(p) == WriteVarBytes(p[0]) + Encode(p[1..]);
    assert Encode(q) == WriteVarBytes(q[0]) + Encode(q[1..]);
  }

  // ---------------------------------------------------------------------
  // Decoding ids

  predicate AllShort(path: seq<Segment>)
  {
    forall i :: 0 <= i < |path| ==> |path[i]| <= MaxSegment
  }

  /** The segments `encodeTableName` reads out of an id: at least one
      length-prefixed element, each at most 1000 bytes, until the id is used
      up. A successful decoding is exactly a path whose id this is. */
  function DecodePath(id: Bytes): (r: Result<seq<Segment>>)
    ensures r.Ok? ==> r.value != [] && AllShort(r.value) && Encode(r.value) == id
    decreases |id|
  {
    match ReadVarBytes(id, MaxSegment)
    case Err(e) => Err(e)
    case Ok((seg, rest)) =>
      if rest == [] then
        assert Encode([seg]) == MkRootBucketId(seg) + Encode([]);
        Ok([seg])
      else
        match DecodePath(rest)
        case Err(e) => Err(e)
        case Ok(segs) =>
          assert ([seg] + segs)[1..] == segs;
          Ok([seg] + segs)
  }

  /** Decoding the id of a path: the path itself when it is non-empty and no
      segment exceeds 1000 bytes; otherwise the decoder's error (an empty id
      reads as end of input). */
  lemma {:induction false} DecodeEncode(path: seq<Segment>)
    ensures DecodePath(Encode(path)) ==
      if path == [] then Err(Truncated)
      else if AllShort(path) then Ok(path)
      else Err(TooLong)
  {
    if path != [] {
      if |path[0]| > MaxSegment {
        var rest := Encode(path[1..]);
        assert Encode(path) == WriteVarBytes(path[0]) + rest;
        ReadVarBytesTooLong(path[0], rest, MaxSegment);
      } else {
        DecodeHead(path);
        AllShortCons(path);
        if path[1..] == [] {
          assert path == [path[0]];
        } else {
          DecodeEncode(path[1..]);
          assert path == [path[0]] + path[1..];
        }
      }
    }
  }

  /** Decoding the id of a path whose first segment is short: that segment,
      then the decoding of the rest of the path's id, if there is any. */
  lemma DecodeHead(path: seq<Segment>)
    requires path != [] && |path[0]| <= MaxSegment
    ensures DecodePath(Encode(path)) ==
      if path[1..] == [] then Ok([path[0]]) else Prepend([path[0]], DecodePath(Encode(path[1..])))
  {
    var rest := Encode(path[1..]);
    assert Encode(path) == WriteVarBytes(path[0]) + rest;
    ReadWriteVarBytes(path[0], rest, MaxSegment);
    DecodeStep(Encode(path), path[0], rest);
    if path[1..] == [] {
      assert rest == [];
    } else {
      assert |rest| > 0;
    }
  }

  lemma AllShortCons(path: seq<Segment>)
    requires path != [] && |path[0]| <= MaxSegment
    ensures AllShort(path) <==> AllShort(path[1..])
    ensures AllShort([path[0]])
  {
    if AllShort(path[1..]) {
      forall i | 0 <= i < |path|
        ensures |path[i]| <= MaxSegment
      {
        if i > 0 { assert path[i] == path[1..][i - 1]; }
      }
    }
  }

  // ---------------------------------------------------------------------
  // Table-name candidates

  /** `escapeChar`: an ASCII digit or letter stands for itself, every other
      byte becomes "_". Always one character; deliberately lossy. */
  function EscapeChar(c: byte): (r: string)
    ensures |r| == 1 && (IsAlnumChar(r[0]) || r[0] == '_')
    ensures IsAlnum(c) <==> r[0] != '_'
    ensures IsAlnum(c) ==> r[0] as int == c as int
  {
    if IsAlnum(c) then [ToChar(c)] else "_"
  }

  /** The escaped bytes of one segment, in order. */
  function Escaped(s: Bytes): (r: string)
    ensures |r| == |s|
  {
    if s == [] then "" else Escaped(s[..|s| - 1]) + EscapeChar(s[|s| - 1])
  }

  /** "-" and the escaped segment, for each segment in order. */
  function Joined(segs: seq<Bytes>): string
  {
    if segs == [] then "" else Joined(segs[..|segs| - 1]) + "-" + Escaped(segs[|segs| - 1])
  }

  /** The untruncated candidate: "bkt" followed by the joined segments. */
  function Body(segs: seq<Bytes>): string
  {
    "bkt" + Joined(segs)
  }

  /** Lower-case hexadecimal without leading zeros, as Go's `%x` prints a
      non-negative integer. */
  function Hex(n: nat): (r: string)
    ensures |r| > 0
  {
    if n < 16 then [HexDigit(n)] else Hex(n / 16) + [HexDigit(n % 16)]
  }

  lemma {:induction false} HexDigits(n: nat)
    ensures forall i :: 0 <= i < |Hex(n)| ==> IsHexDigit(Hex(n)[i])
  {
    if n >= 16 {
      HexDigits(n / 16);
    }
  }

  /** The disambiguation suffix: "-u" and the hex of `unique` when positive. */
  function Suffix(unique: nat): string
  {
    if unique > 0 then "-u" + Hex(unique) else ""
  }

  /** `encodeTableName` on decoded segments: the body cut to the budget,
      then the whole suffix. */
  function Candidate(segs: seq<Bytes>, unique: nat): string
  {
    Fit(Body(segs), Suffix(unique))
  }

  /** The shape of a candidate: it ends with the whole suffix; what precedes
      the suffix is a prefix of the body, all of it when body and suffix fit
      the budget; it starts with "bkt" and is at most 60 characters long for
      any disambiguator Go's `int` can hold. (For a larger one, which has no
      counterpart in the source, none of the body is kept.) */
  lemma CandidateShape(segs: seq<Bytes>, unique: nat)
    ensures var name := Candidate(segs, unique);
      && |name| >= |Suffix(unique)|
      && name[|name| - |Suffix(unique)|..] == Suffix(unique)
      && name[..|name| - |Suffix(unique)|] <= Body(segs)
      && (|Body(segs)| + |Suffix(unique)| <= MaxNameLength ==> name == Body(segs) + Suffix(unique))
      && (unique <= MaxInt ==> |name| <= MaxNameLength && |name| >= 3 && name[..3] == "bkt")
  {
    SuffixLength(unique);
    var body, u := Body(segs), Suffix(unique);
    var name := Candidate(segs, unique);
    if |body| + |u| > MaxNameLength {
      var keep := if |u| <= MaxNameLength then MaxNameLength - |u| else 0;
      assert name == body[..keep] + u;
      assert name[..|name| - |u|] == body[..keep];
    } else {
      assert name == body + u;
      assert name[..|name| - |u|] == body;
    }
  }

  /** No candidate is the empty string, which the catalog reads as "no
      such bucket". */
  lemma CandidateNonEmpty(segs: seq<Bytes>, unique: nat)
    ensures Candidate(segs, unique) != ""
  {
    CandidateShape(segs, unique);
    if unique > MaxInt {
      assert |Suffix(unique)| >= 2;
    }
  }

  /** The cut of `encodeTableName`: when `body` and `u` together exceed the
      budget, only as much of `body` is kept as leaves room for all of `u`. */
  function Fit(body: string, u: string): string
  {
    if |body| + |u| > MaxNameLength then
      body[..if |u| <= MaxNameLength then MaxNameLength - |u| else 0] + u
    else
      body + u
  }

  function Pow16(k: nat): nat
  {
    if k == 0 then 1 else 16 * Pow16(k - 1)
  }

  lemma {:induction false} HexLength(n: nat, k: nat)
    requires k > 0 && n < Pow16(k)
    ensures |Hex(n)| <= k
  {
    if n >= 16 {
      assert k > 1;
      HexLength(n / 16, k - 1);
    }
  }

  lemma SuffixLength(unique: nat)
    ensures unique <= MaxInt ==> |Suffix(unique)| <= 18
  {
    if 0 < unique <= MaxInt {
      var k := 16;
      assert Pow16(4) == 0x1_0000;
      assert Pow16(8) == 0x1_0000 * Pow16(4);
      assert Pow16(12) == 0x1_0000 * Pow16(8);
      assert Pow16(16) == 0x1_0000 * Pow16(12);
      HexLength(unique, k);
    }
  }

  /** The value of a string of lower-case hexadecimal digits. */
  function HexToNat(s: string): nat
  {
    if s == [] then 0 else 16 * HexToNat(s[..|s| - 1]) + HexValue(s[|s| - 1])
  }

  lemma {:induction false} HexRoundTrip(n: nat)
    ensures HexToNat(Hex(n)) == n
  {
    if n >= 16 {
      HexRoundTrip(n / 16);
      var h := Hex(n);
      assert h[..|h| - 1] == Hex(n / 16);
    }
  }

  /** Candidates with a positive disambiguator never coincide for different
      disambiguators, whatever the segments: the suffix is kept whole, 'u' is
      not a hex digit, so the length and then the value of the hex part can
      be read off the end of the name. */
  lemma CandidateInjective(segs1: seq<Bytes>, segs2: seq<Bytes>, u1: nat, u2: nat)
    requires u1 > 0 && u2 > 0
    requires Candidate(segs1, u1) == Candidate(segs2, u2)
    ensures u1 == u2
  {
    var c := Candidate(segs1, u1);
    CandidateShape(segs1, u1);
    CandidateShape(segs2, u2);
    HexDigits(u1);
    HexDigits(u2);
    SuffixesAgree(c, Hex(u1), Hex(u2));
    HexRoundTrip(u1);
    HexRoundTrip(u2);
  }

  /** The longest run of hex digits at the end of `c`. */
  function TrailingHex(c: string): string
  {
    if c == [] || !IsHexDigit(c[|c| - 1]) then [] else TrailingHex(c[..|c| - 1]) + [c[|c| - 1]]
  }

  lemma {:induction false} TrailingHexAfter(x: string, h: string)
    requires x != [] && !IsHexDigit(x[|x| - 1])
    requires forall i :: 0 <= i < |h| ==> IsHexDigit(h[i])
    ensures TrailingHex(x + h) == h
  {
    if h != [] {
      assert (x + h)[..|x + h| - 1] == x + h[..|h| - 1];
      TrailingHexAfter(x, h[..|h| - 1]);
    } else {
      assert x + h == x;
    }
  }

  /** A name ends with at most one "-u" followed by hex digits: the hex part
      is the trailing run of hex digits, since 'u' is not one. */
  lemma SuffixesAgree(c: string, h1: string, h2: string)
    requires |c| >= |h1| + 2 && c[|c| - |h1| - 2..] == "-u" + h1
    requires |c| >= |h2| + 2 && c[|c| - |h2| - 2..] == "-u" + h2
    requires forall i :: 0 <= i < |h1| ==> IsHexDigit(h1[i])
    requires forall i :: 0 <= i < |h2| ==> IsHexDigit(h2[i])
    ensures h1 == h2
  {
    SplitBeforeHex(c, h1);
    SplitBeforeHex(c, h2);
  }

  lemma SplitBeforeHex(c: string, h: string)
    requires |c| >= |h| + 2 && c[|c| - |h| - 2..] == "-u" + h
    requires forall i :: 0 <= i < |h| ==> IsHexDigit(h[i])
    ensures TrailingHex(c) == h
  {
    var x := c[..|c| - |h|];
    assert x[|x| - 1] == ("-u" + h)[1] == 'u';
    assert c == x + h;
    TrailingHexAfter(x, h);
  }

  /** The candidates for disambiguators 1..n. */
  function Candidates(segs: seq<Bytes>, n: nat): set<string>
  {
    if n == 0 then {} else Candidates(segs, n - 1) + {Candidate(segs, n)}
  }

  lemma {:induction false} CandidatesExclude(segs: seq<Bytes>, n: nat, m: nat)
    requires n < m
    ensures Candidate(segs, m) !in Candidates(segs, n)
  {
    if n > 0 {
      CandidatesExclude(segs, n - 1, m);
      if Candidate(segs, m) == Candidate(segs, n) {
        CandidateInjective(segs, segs, m, n);
      }
    }
  }

  lemma {:induction false} CandidatesSize(segs: seq<Bytes>, n: nat)
    ensures |Candidates(segs, n)| == n
  {
    if n > 0 {
      CandidatesSize(segs, n - 1);
      CandidatesExclude(segs, n - 1, n);
    }
  }

  lemma {:induction false} CandidatesWithin(segs: seq<Bytes>, n: nat, used: set<string>)
    requires forall u :: 1 <= u <= n ==> Candidate(segs, u) in used
    ensures Candidates(segs, n) <= used
  {
    if n > 0 {
      CandidatesWithin(segs, n - 1, used);
    }
  }

  lemma {:induction false} SubsetSize<T>(a: set<T>, b: set<T>)
    requires a <= b
    ensures |a| <= |b|
  {
    if a != {} {
      var x :| x in a;
      SubsetSize(a - {x}, b - {x});
    }
  }

  /** Whatever finite set of names is taken, one of the first |used| + 1
      positive disambiguators gives a free candidate; this is why the
      catalog's probe-and-retry loop terminates. */
  lemma FreeCandidateExists(segs: seq<Bytes>, used: set<string>)
    ensures exists u :: 1 <= u <= |used| + 1 && Candidate(segs, u) !in used
  {
    var n := |used| + 1;
    if forall u :: 1 <= u <= n ==> Candidate(segs, u) in used {
      CandidatesWithin(segs, n, used);
      CandidatesSize(segs, n);
      SubsetSize(Candidates(segs, n), used);
      assert false;
    }
  }

  // ---------------------------------------------------------------------
  // encodeTableName and String

  /** What `encodeTableName(id, unique)` returns: the candidate of the
      decoded segments, or the decoder's error. */
  function EncodedTableName(id: Bytes, unique: nat): Result<string>
  {
    match DecodePath(id)
    case Ok(segs) => Ok(Candidate(segs, unique))
    case Err(e) => Err(e)
  }

  /** `Prepend(done, r)`: the decoding `r` of the rest of an id, with the
      segments `done` already read in front of it. */
  function Prepend(done: seq<Segment>, r: Result<seq<Segment>>): Result<seq<Segment>>
  {
    match r
    case Ok(segs) => Ok(done + segs)
    case Err(e) => Err(e)
  }

  /** One step of `DecodePath`: after the first segment, either the id is
      used up or the rest is decoded the same way. */
  lemma DecodeStep(buf: Bytes, seg: Segment, rest: Bytes)
    requires ReadVarBytes(buf, MaxSegment) == Ok((seg, rest))
    ensures DecodePath(buf) == if rest == [] then Ok([seg]) else Prepend([seg], DecodePath(rest))
  {
  }

  lemma PrependPrepend(a: seq<Segment>, b: seq<Segment>, r: Result<seq<Segment>>)
    ensures Prepend(a, Prepend(b, r)) == Prepend(a + b, r)
  {
    if r.Ok? {
      assert a + (b + r.value) == (a + b) + r.value;
    }
  }

  lemma BodyAppend(done: seq<Bytes>, seg: Bytes)
    ensures Body(done + [seg]) == Body(done) + "-" + Escaped(seg)
  {
    assert (done + [seg])[..|done|] == done;
  }

  lemma EscapedSnoc(s: Bytes, j: nat)
    requires j < |s|
    ensures Escaped(s[..j + 1]) == Escaped(s[..j]) + EscapeChar(s[j])
  {
    assert s[..j + 1][..j] == s[..j];
  }

  lemma FitCut(body: string, u: string, kept: string)
    requires kept == if |body| + |u| > MaxNameLength then body[..if |u| <= MaxNameLength then MaxNameLength - |u| else 0] else body
    ensures kept + u == Fit(body, u)
  {
  }

  lemma CandidateOf(segs: seq<Bytes>, unique: nat, body: string, u: string)
    requires body == Body(segs)
    requires u == if unique > 0 then "-u" + Hex(unique) else ""
    ensures Candidate(segs, unique) == Fit(body, u)
  {
  }

  /** `encodeTableName`: consumes the id one length-prefixed segment at a
      time, appending "-" and the escaped segment to "bkt", then adds the
      suffix and cuts the body to the 60-character budget. */
  method EncodeTableName(id: Bytes, unique: nat) returns (r: Result<string>)
    ensures r == EncodedTableName(id, unique)
  {
    var buf := id;
    var out := "bkt";
    ghost var done: seq<Segment> := [];
    assert Prepend(done, DecodePath(buf)) == DecodePath(id) by {
      if DecodePath(id).Ok? { assert [] + DecodePath(id).value == DecodePath(id).value; }
    }
    while true
      invariant out == Body(done)
      invariant DecodePath(id) == Prepend(done, DecodePath(buf))
      decreases |buf|
    {
      var read := ReadVarBytes(buf, MaxSegment);
      if read.Err? {
        assert DecodePath(buf) == Err(read.error);
        return Err(read.error);
      }
      var seg: Segment, rest := read.value.0, read.value.1;
      out := out + "-";
      ghost var head := out;
      var j := 0;
      while j < |seg|
        invariant 0 <= j <= |seg|
        invariant out == head + Escaped(seg[..j])
      {
        EscapedSnoc(seg, j);
        out := out + EscapeChar(seg[j]);
        j := j + 1;
      }
      assert seg[..j] == seg;
      BodyAppend(done, seg);
      DecodeStep(buf, seg, rest);
      PrependPrepend(done, [seg], DecodePath(rest));
      done := done + [seg];
      buf := rest;
      if |buf| == 0 {
        assert DecodePath(id) == Ok(done);
        break;
      }
    }
    var u := if unique > 0 then "-u" + Hex(unique) else "";
    ghost var body := out;
    CandidateOf(done, unique, body, u);
    if |out| + |u| > MaxNameLength {
      out := out[..if |u| <= MaxNameLength then MaxNameLength - |u| else 0];
    }
    FitCut(body, u, out);
    r := Ok(out + u);
  }

  /** A short word for each decoder error, standing in for its message. */
  function ErrorWord(e: Error): string
  {
    match e
    case Truncated => "EOF"
    case NonCanonical => "non-canonical varint"
    case TooLong => "too long"
    case _ => "error"
  }

  /** The hex of an id, two digits per byte. */
  function HexBytes(bs: Bytes): (r: string)
    ensures |r| == 2 * |bs|
  {
    if bs == [] then "" else HexBytes(bs[..|bs| - 1]) + HexByte(bs[|bs| - 1])
  }

  /** `bucketId.String`: the candidate name without disambiguator, or an
      error line that quotes the id in hex when the id does not decode. */
  function String(id: Bytes): (s: string)
    ensures DecodePath(id).Ok? ==> s == Candidate(DecodePath(id).value, 0) && |s| <= MaxNameLength
    ensures DecodePath(id).Err? ==>
      s == "Error encoding bucket name: [" + HexBytes(id) + "]: [" + ErrorWord(DecodePath(id).error) + "]"
  {
    match EncodedTableName(id, 0)
    case Ok(table) => table
    case Err(e) => "Error encoding bucket name: [" + HexBytes(id) + "]: [" + ErrorWord(e) + "]"
  }

  /** The escape is lossy: the top-level buckets "-" and "." are distinct but
      share the candidate "bkt-_", which is why the catalog disambiguates. */
  lemma EscapeIsLossy()
    ensures MkRootBucketId([45]) != MkRootBucketId([46])
    ensures EncodedTableName(MkRootBucketId([45]), 0) == EncodedTableName(MkRootBucketId([46]), 0) == Ok("bkt-_")
  {
    var a: seq<Segment> := [[45]];
    var b: seq<Segment> := [[46]];
    assert Encode(a) == MkRootBucketId([45]) + Encode([]);
    assert Encode(b) == MkRootBucketId([46]) + Encode([]);
    DecodeEncode(a);
    DecodeEncode(b);
    assert Escaped([45]) == "_" == Escaped([46]);
    assert Joined(a) == Joined([]) + "-" + Escaped([45]) == "-_";
    assert Joined(b) == Joined([]) + "-" + Escaped([46]) == "-_";
    assert Candidate(a, 0) == Fit("bkt-_", "") == "bkt-_";
    assert Candidate(b, 0) == Fit("bkt-_", "") == "bkt-_";
    if MkRootBucketId([45]) == MkRootBucketId([46]) {
      EncodeInjective(a, b);
    }
  }

  /** ASCII upper-case letters in lower case, as SQL compares identifiers. */
  function LowerChar(c: char): char
  {
    if 'A' <= c <= 'Z' then (c as int + 32) as char else c
  }

  function FoldCase(s: string): (r: string)
    ensures |r| == |s|
  {
    if s == [] then [] else FoldCase(s[..|s| - 1]) + [LowerChar(s[|s| - 1])]
  }

  /** The escape keeps letter case: the top-level buckets "A" and "a" get
      the candidates "bkt-A" and "bkt-a", which differ as strings (so the
      catalog accepts both) but name the same SQL table once identifier
      case is ignored. */
  lemma CaseCollision()
    ensures MkRootBucketId([65]) != MkRootBucketId([97])
    ensures EncodedTableName(MkRootBucketId([65]), 0) == Ok("bkt-A")
    ensures EncodedTableName(MkRootBucketId([97]), 0) == Ok("bkt-a")
    ensures "bkt-A" != "bkt-a" && FoldCase("bkt-A") == FoldCase("bkt-a")
  {
    OneByteCandidate(65);
    OneByteCandidate(97);
    assert EscapeChar(65) == "A" && EscapeChar(97) == "a";
    assert "bkt-" + "A" == "bkt-A" && "bkt-" + "a" == "bkt-a";
    FoldCaseLetters();
  }

  /** The first candidate of a top-level bucket named by one byte. */
  lemma OneByteCandidate(c: byte)
    ensures EncodedTableName(MkRootBucketId([c]), 0) == Ok("bkt-" + EscapeChar(c))
  {
    var a: seq<Segment> := [[c]];
    assert Encode(a) == MkRootBucketId([c]) + Encode([]);
    DecodeEncode(a);
    assert Escaped([c]) == Escaped([]) + EscapeChar(c);
    assert Joined(a) == Joined([]) + "-" + Escaped([c]);
    assert Candidate(a, 0) == Fit("bkt-" + EscapeChar(c), "") == "bkt-" + EscapeChar(c);
  }

  lemma FoldCaseLetters()
    ensures "bkt-A" != "bkt-a" && FoldCase("bkt-A") == FoldCase("bkt-a")
  {
    assert "bkt-A"[4] != "bkt-a"[4];
    FoldLast("bkt-", 'A');
    FoldLast("bkt-", 'a');
    assert "bkt-" + ['A'] == "bkt-A" && "bkt-" + ['a'] == "bkt-a";
  }

  lemma FoldLast(s: string, c: char)
    ensures FoldCase(s + [c]) == FoldCase(s) + [LowerChar(c)]
  {
    assert (s + [c])[..|s|] == s;
  }
}
