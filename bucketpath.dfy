/** The second path-to-table-name scheme (bucketpath/tablename.go and
    bucketpath/main.go). A path [s1, ..., sn] is named "bkt_" + e(s1) + "_"
    ... "_" + e(sn), where the escape e keeps ASCII digits and letters and
    writes every other byte as "%" and two lower-case hex digits. Since no
    escape contains "_", the separators can be found again, and since the
    escape can be undone, distinct paths get distinct names. */
module BucketPaths {
  import opened Common

  /** `escapeChar` of bucketpath: a digit or letter stands for itself,
      every other byte becomes "%" and its two hex digits. */
  function EscapeChar(c: byte): (r: string)
    ensures IsAlnum(c) ==> r == [ToChar(c)]
    ensures !IsAlnum(c) ==> |r| == 3 && r[0] == '%' && r[1..] == HexByte(c)
    ensures forall i :: 0 <= i < |r| ==> IsAlnumChar(r[i]) || r[i] == '%'
  {
    if IsAlnum(c) then [ToChar(c)] else "%" + HexByte(c)
  }

  /** The escaped bytes of one segment, in order. */
  function Escape(s: Bytes): (r: string)
    ensures forall i :: 0 <= i < |r| ==> IsAlnumChar(r[i]) || r[i] == '%'
  {
    if s == [] then "" else EscapeChar(s[0]) + Escape(s[1..])
  }

  lemma {:induction false} EscapeAppend(a: Bytes, b: Bytes)
    ensures Escape(a + b) == Escape(a) + Escape(b)
  {
    if a == [] {
      assert a + b == b;
    } else {
      assert (a + b)[0] == a[0] && (a + b)[1..] == a[1..] + b;
      EscapeAppend(a[1..], b);
    }
  }

  /** Reads one escape off the front of `s`: the byte and the rest. */
  function UnescapeOne(s: string): Option<(byte, string)>
    requires s != ""
  {
    if IsAlnumChar(s[0]) then Some((s[0] as int as byte, s[1..]))
    else if s[0] == '%' && |s| >= 3 && IsHexDigit(s[1]) && IsHexDigit(s[2]) then
      Some(((16 * HexValue(s[1]) + HexValue(s[2])) as byte, s[3..]))
    else None
  }

  /** The inverse of `Escape`: the bytes a string of escapes stands for. */
  function Unescape(s: string): Option<Bytes>
    decreases |s|
  {
    if s == "" then Some([])
    else match UnescapeOne(s)
      case None => None
      case Some((c, rest)) =>
        match Unescape(rest)
        case None => None
        case Some(cs) => Some([c] + cs)
  }

  lemma UnescapeOneEscape(c: byte, rest: string)
    ensures UnescapeOne(EscapeChar(c) + rest) == Some((c, rest))
  {
    var e := EscapeChar(c);
    assert (e + rest)[..|e|] == e;
    if IsAlnum(c) {
      assert (e + rest)[1..] == rest;
    } else {
      assert (e + rest)[3..] == rest;
      assert !IsAlnumChar('%');
    }
  }

  /** Unescaping undoes escaping. */
  lemma {:induction false} UnescapeEscape(s: Bytes)
    ensures Unescape(Escape(s)) == Some(s)
  {
    if s != [] {
      UnescapeEscape(s[1..]);
      UnescapeOneEscape(s[0], Escape(s[1..]));
      assert s == [s[0]] + s[1..];
    }
  }

  /** The escape is injective, unlike the lossy escape of the catalog. */
  lemma EscapeInjective(a: Bytes, b: Bytes)
    requires Escape(a) == Escape(b)
    ensures a == b
  {
    UnescapeEscape(a);
    UnescapeEscape(b);
  }

  /** `tableName`: "bkt", then "_" and the escaped segment for each
      segment in order. Every character is a digit, a letter, "_" or "%". */
  function TableNameOf(path: seq<Bytes>): (name: string)
    ensures |name| >= 3 && name[..3] == "bkt"
    ensures forall i :: 0 <= i < |name| ==> IsAlnumChar(name[i]) || name[i] == '_' || name[i] == '%'
  {
    if path == [] then "bkt"
    else TableNameOf(path[..|path| - 1]) + "_" + Escape(path[|path| - 1])
  }

  /** A name holds "_" exactly where a segment starts: "bkt" has none. */
  lemma NoSeparatorInEscape(s: Bytes)
    ensures '_' !in Escape(s)
  {
  }

  /** Splitting at the last separator: two names that end in an escaped
      segment after a "_" agree on that segment and on what precedes it. */
  lemma LastSeparator(x: string, y: string, e1: string, e2: string)
    requires '_' !in e1 && '_' !in e2
    requires x + "_" + e1 == y + "_" + e2
    ensures x == y && e1 == e2
  {
    if |x| < |y| {
      SeparatorInside(x, y, e1, e2);
      assert false;
    } else if |y| < |x| {
      SeparatorInside(y, x, e2, e1);
      assert false;
    }
    var s := x + "_" + e1;
    assert x == s[..|x|] == y;
    assert e1 == s[|x| + 1..] == e2;
  }

  /** Where the other name has its last separator, this one has a "_" in
      its last segment. */
  lemma SeparatorInside(x: string, y: string, e1: string, e2: string)
    requires x + "_" + e1 == y + "_" + e2 && |x| < |y|
    ensures e1[|y| - |x| - 1] == '_'
  {
    var s := x + "_" + e1;
    assert s[|y|] == (y + "_" + e2)[|y|];
  }

  /** Distinct paths have distinct table names. */
  lemma {:induction false} TableNameInjective(p: seq<Bytes>, q: seq<Bytes>)
    requires TableNameOf(p) == TableNameOf(q)
    ensures p == q
  {
    if p == [] && q != [] {
      NoHeadSeparator(q);
    } else if p != [] && q == [] {
      NoHeadSeparator(p);
    } else if p != [] && q != [] {
      var p0, q0 := p[..|p| - 1], q[..|q| - 1];
      NoSeparatorInEscape(p[|p| - 1]);
      NoSeparatorInEscape(q[|q| - 1]);
      LastSeparator(TableNameOf(p0), TableNameOf(q0), Escape(p[|p| - 1]), Escape(q[|q| - 1]));
      EscapeInjective(p[|p| - 1], q[|q| - 1]);
      TableNameInjective(p0, q0);
      assert p == p0 + [p[|p| - 1]] && q == q0 + [q[|q| - 1]];
    }
  }

  /** The name of a non-empty path is longer than "bkt", which is the name
      of the empty path. */
  lemma NoHeadSeparator(p: seq<Bytes>)
    requires p != []
    ensures TableNameOf(p) != "bkt"
  {
  }

  /** `tableName` as written: a loop over the segments with an inner loop
      over the bytes, accumulating into `out`. */
  method TableName(path: seq<Bytes>) returns (out: string)
    ensures out == TableNameOf(path)
  {
    out := "bkt";
    for i := 0 to |path|
      invariant out == TableNameOf(path[..i])
    {
      out := out + "_";
      ghost var head := out;
      var x := path[i];
      for j := 0 to |x|
        invariant out == head + Escape(x[..j])
      {
        EscapeSnoc(x, j);
        out := out + EscapeChar(x[j]);
      }
      assert x[..|x|] == x;
      TableNameSnoc(path, i);
    }
    assert path[..|path|] == path;
  }

  lemma EscapeSnoc(x: Bytes, j: nat)
    requires j < |x|
    ensures Escape(x[..j + 1]) == Escape(x[..j]) + EscapeChar(x[j])
  {
    EscapeAppend(x[..j], [x[j]]);
    assert x[..j + 1] == x[..j] + [x[j]];
    assert Escape([x[j]]) == EscapeChar(x[j]) + Escape([]);
  }

  lemma TableNameSnoc(path: seq<Bytes>, i: nat)
    requires i < |path|
    ensures TableNameOf(path[..i + 1]) == TableNameOf(path[..i]) + "_" + Escape(path[i])
  {
    assert path[..i + 1][..i] == path[..i];
  }

  /** A `BucketPath`: the segments of a path and the table name computed
      for it (left empty by `RootKey`). */
  datatype BucketPath = BucketPath(path: seq<Bytes>, table: string)
  {
    /** `Child`: the path with `name` appended and its table name; the
        receiver is a value and stays as it was. */
    function Child(name: Bytes): (child: BucketPath)
      ensures child.path == path + [name]
      ensures child.table == TableNameOf(path) + "_" + Escape(name)
      ensures child.Built()
    {
      var p := path + [name];
      assert p[..|p| - 1] == path;
      BucketPath(p, TableNameOf(p))
    }

    /** Made by `RootKey` or `Child`: the table is the path's name, or
        empty for a root key. The zero value (no segments, table "") is the
        one other value code outside the package can make, and it is not
        built. */
    predicate Built()
    {
      table == TableNameOf(path) || (|path| == 1 && table == "")
    }

    /** `Table`: a non-empty table name of a built path is the name of
        that path. */
    function Table(): (r: string)
      ensures Built() && r != "" ==> r == TableNameOf(path)
      ensures Built() && |path| != 1 ==> r == TableNameOf(path)
    {
      table
    }
  }

  /** `RootKey`: the one-segment path `name`, whose table is not computed. */
  function RootKey(name: Bytes): (bp: BucketPath)
    ensures bp.path == [name] && bp.Built()
  {
    BucketPath([name], "")
  }

  /** The table of a root key's child is "bkt_", the escaped root name,
      "_" and the escaped child name; the root key itself reports no table. */
  lemma RootChildTable(a: Bytes, b: Bytes)
    ensures RootKey(a).Child(b).Table() == "bkt_" + Escape(a) + "_" + Escape(b)
    ensures RootKey(a).Table() == ""
  {
    TableNameOne(a);
  }

  /** The empty path is named "bkt"; a one-segment path adds "_" and the
      escaped segment. */
  lemma TableNameOne(a: Bytes)
    ensures TableNameOf([]) == "bkt"
    ensures TableNameOf([a]) == "bkt_" + Escape(a)
  {
    assert [a][..0] == [];
  }
}
