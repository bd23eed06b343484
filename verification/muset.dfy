/** `parse_mu_set`: the comma-separated list of step multipliers mu given
    on the command line. The text is split at every ',', each piece has its
    surrounding white space removed, blank pieces are skipped, the rest are
    parsed as numbers (a piece that does not parse, or a negative value, is
    an error), and the collected values are sorted ascending with
    duplicates removed. Number parsing (`str::parse::<f32>`) is a parameter
    `parse`. */
module MuSet {
  import opened Scalar

  datatype MuError = ParseFailed(piece: string) | Negative(v: real)

  datatype Result<T> = Ok(value: T) | Err(error: MuError)

  /** `str::split(',')`: the pieces between the commas, in order; the empty
      text is one empty piece and every comma ends a piece. */
  function Split(s: string): (r: seq<string>)
    ensures |r| >= 1
    ensures forall i :: 0 <= i < |r| ==> ',' !in r[i]
  {
    if |s| == 0 then [""]
    else
      var rest := Split(s[1..]);
      if s[0] == ',' then [""] + rest
      else [[s[0]] + rest[0]] + rest[1..]
  }

  /** The pieces put back together with a comma between each two. */
  function Join(ps: seq<string>): string
    requires |ps| >= 1
  {
    if |ps| == 1 then ps[0] else ps[0] + [','] + Join(ps[1..])
  }

  /** Splitting loses nothing: joining the pieces gives the text back. */
  lemma {:induction false} JoinSplit(s: string)
    ensures Join(Split(s)) == s
    decreases |s|
  {
    if |s| > 0 {
      var rest := Split(s[1..]);
      JoinSplit(s[1..]);
      if s[0] == ',' {
        assert ([""] + rest)[1..] == rest;
      } else {
        var r := Split(s);
        assert r[0] == [s[0]] + rest[0] && r[1..] == rest[1..];
        if |rest| == 1 {
          assert Join(r) == [s[0]] + rest[0];
        } else {
          assert Join(r) == [s[0]] + rest[0] + [','] + Join(rest[1..]);
          assert Join(rest) == rest[0] + [','] + Join(rest[1..]);
        }
      }
    }
  }

  /** ... and any comma-free pieces are exactly what splitting their join
      gives. */
  lemma {:induction false} SplitJoin(ps: seq<string>)
    requires |ps| >= 1
    requires forall i :: 0 <= i < |ps| ==> ',' !in ps[i]
    ensures Split(Join(ps)) == ps
    decreases |ps|, |ps[0]|
  {
    if |ps[0]| > 0 {
      var p := ps[0];
      var q := [p[1..]] + ps[1..];
      assert forall i :: 0 <= i < |q| ==> ',' !in q[i] by {
        forall i | 0 <= i < |q| ensures ',' !in q[i] {
          if i == 0 {
            assert forall c :: c in p[1..] ==> c in p;
          } else {
            assert q[i] == ps[i];
          }
        }
      }
      SplitJoin(q);
      assert p == [p[0]] + p[1..];
      if |ps| == 1 {
        assert Join(ps) == p && Join(q) == p[1..];
      } else {
        assert Join(q) == p[1..] + [','] + Join(ps[1..]);
        assert Join(ps) == [p[0]] + Join(q);
      }
      assert Join(ps)[0] == p[0] && Join(ps)[1..] == Join(q);
      assert q[1..] == ps[1..];
    } else if |ps| > 1 {
      SplitJoin(ps[1..]);
      assert Join(ps) == [','] + Join(ps[1..]);
      assert Join(ps)[1..] == Join(ps[1..]);
      assert [""] + ps[1..] == ps;
    }
  }

  /** `char::is_whitespace`: the Unicode White_Space characters. */
  predicate IsWhite(c: char) {
    var k := c as int;
    (9 <= k <= 13) || k == 32 || k == 0x85 || k == 0xA0 || k == 0x1680
    || (0x2000 <= k <= 0x200A) || k == 0x2028 || k == 0x2029 || k == 0x202F
    || k == 0x205F || k == 0x3000
  }

  /** `str::trim_start`. */
  function TrimStart(s: string): string
  {
    if |s| > 0 && IsWhite(s[0]) then TrimStart(s[1..]) else s
  }

  /** `str::trim_end`. */
  function TrimEnd(s: string): string
  {
    if |s| > 0 && IsWhite(s[|s| - 1]) then TrimEnd(s[..|s| - 1]) else s
  }

  /** `str::trim`: white space removed at both ends. */
  function Trim(s: string): string
  {
    TrimEnd(TrimStart(s))
  }

  /** Trimming the start drops a white prefix and stops at the first
      other character. */
  lemma {:induction false} TrimStartProperties(s: string)
    ensures var r := TrimStart(s);
      && |r| <= |s| && r == s[|s| - |r|..]
      && (|r| == 0 || !IsWhite(r[0]))
      && (forall i :: 0 <= i < |s| - |r| ==> IsWhite(s[i]))
    decreases |s|
  {
    if |s| > 0 && IsWhite(s[0]) {
      TrimStartProperties(s[1..]);
      var r := TrimStart(s);
      assert s[1..][|s| - 1 - |r|..] == s[|s| - |r|..];
      forall i | 0 <= i < |s| - |r| ensures IsWhite(s[i]) {
        if i > 0 {
          assert s[i] == s[1..][i - 1];
        }
      }
    }
  }

  /** Trimming the end drops a white suffix and stops at the last other
      character. */
  lemma {:induction false} TrimEndProperties(s: string)
    ensures var r := TrimEnd(s);
      && |r| <= |s| && r == s[..|r|]
      && (|r| == 0 || !IsWhite(r[|r| - 1]))
      && (forall i :: |r| <= i < |s| ==> IsWhite(s[i]))
    decreases |s|
  {
    if |s| > 0 && IsWhite(s[|s| - 1]) {
      TrimEndProperties(s[..|s| - 1]);
      var r := TrimEnd(s);
      assert s[..|s| - 1][..|r|] == s[..|r|];
      forall i | |r| <= i < |s| ensures IsWhite(s[i]) {
        if i < |s| - 1 {
          assert s[i] == s[..|s| - 1][i];
        }
      }
    }
  }

  /** The trimmed piece is a slice of the piece that neither starts nor ends
      with white space, and everything cut off was white space. */
  lemma TrimProperties(s: string)
    ensures exists i, j ::
      (0 <= i <= j <= |s| && Trim(s) == s[i..j]
       && (forall k :: 0 <= k < i ==> IsWhite(s[k]))
       && (forall k :: j <= k < |s| ==> IsWhite(s[k])))
    ensures |Trim(s)| > 0 ==> !IsWhite(Trim(s)[0]) && !IsWhite(Trim(s)[|Trim(s)| - 1])
  {
    var a := TrimStart(s);
    TrimStartProperties(s);
    TrimEndProperties(a);
    var i := |s| - |a|;
    var j := i + |Trim(s)|;
    assert Trim(s) == s[i..j];
    forall k | j <= k < |s| ensures IsWhite(s[k]) {
      assert s[k] == a[k - i];
    }
    if |Trim(s)| > 0 {
      assert Trim(s)[0] == a[0];
    }
  }

  /** A piece trims to nothing exactly when it is all white space. */
  lemma TrimBlank(s: string)
    ensures |Trim(s)| == 0 <==> forall k :: 0 <= k < |s| ==> IsWhite(s[k])
  {
    var a := TrimStart(s);
    TrimStartProperties(s);
    TrimEndProperties(a);
    var i := |s| - |a|;
    assert |a| > 0 ==> a[0] == s[i];
  }

  /** One piece of the loop body: blank pieces are skipped, others must
      parse to a non-negative value, which is appended. */
  function Accept(out: seq<real>, piece: string, parse: string -> Option<real>): Result<seq<real>>
  {
    var p := Trim(piece);
    if |p| == 0 then Ok(out)
    else match parse(p)
      case None => Err(ParseFailed(p))
      case Some(v) => if v < 0.0 then Err(Negative(v)) else Ok(out + [v])
  }

  /** The values collected from the pieces, in order, or the first error. */
  function Collect(ps: seq<string>, parse: string -> Option<real>): Result<seq<real>>
  {
    if |ps| == 0 then Ok([])
    else match Collect(ps[..|ps| - 1], parse)
      case Err(e) => Err(e)
      case Ok(out) => Accept(out, ps[|ps| - 1], parse)
  }

  /** The sorted list of distinct values: `sort_by` followed by `dedup`. */
  function SortDedup(xs: seq<real>): (r: seq<real>)
  {
    if |xs| == 0 then [] else Insert(xs[|xs| - 1], SortDedup(xs[..|xs| - 1]))
  }

  /** Places x into an ascending list, unless it is already there. */
  function Insert(x: real, s: seq<real>): (r: seq<real>)
  {
    if |s| == 0 then [x]
    else if x < s[0] then [x] + s
    else if x == s[0] then s
    else [s[0]] + Insert(x, s[1..])
  }

  /** The values a list holds. */
  function Elems(s: seq<real>): set<real> {
    set y | y in s
  }

  predicate StrictlyAscending(s: seq<real>) {
    forall i, j :: 0 <= i < j < |s| ==> s[i] < s[j]
  }

  /** What `parse_mu_set` returns. */
  function ParsedMuSet(s: string, parse: string -> Option<real>): Result<seq<real>>
  {
    match Collect(Split(s), parse)
      case Err(e) => Err(e)
      case Ok(out) => Ok(SortDedup(out))
  }

  /** Collecting one more piece is one more step of the loop body. */
  lemma CollectSnoc(ps: seq<string>, i: int, parse: string -> Option<real>)
    requires 0 <= i < |ps|
    ensures Collect(ps[..i + 1], parse) ==
      match Collect(ps[..i], parse)
        case Err(e) => Err(e)
        case Ok(out) => Accept(out, ps[i], parse)
  {
    assert ps[..i + 1][..i] == ps[..i];
  }

  /** Once a prefix of the pieces fails, the whole list fails the same way:
      the loop returns at the first error. */
  lemma {:induction false} CollectErrSticks(ps: seq<string>, i: int, parse: string -> Option<real>)
    requires 0 <= i <= |ps| && Collect(ps[..i], parse).Err?
    ensures Collect(ps, parse) == Collect(ps[..i], parse)
    decreases |ps| - i
  {
    if i == |ps| {
      assert ps[..i] == ps;
    } else {
      CollectSnoc(ps, i, parse);
      CollectErrSticks(ps, i + 1, parse);
    }
  }

  /** `parse_mu_set`: the loop over the pieces, stopping at the first
      error, then the sort and de-duplication. */
  method ParseMuSet(s: string, parse: string -> Option<real>) returns (r: Result<seq<real>>)
    ensures r == ParsedMuSet(s, parse)
  {
    var parts := Split(s);
    var out: seq<real> := [];
    for i := 0 to |parts|
      invariant Collect(parts[..i], parse) == Ok(out)
    {
      CollectSnoc(parts, i, parse);
      var p := Trim(parts[i]);
      if |p| == 0 {
        continue;
      }
      match parse(p)
      case None =>
        CollectErrSticks(parts, i + 1, parse);
        return Err(ParseFailed(p));
      case Some(v) =>
        if v < 0.0 {
          CollectErrSticks(parts, i + 1, parse);
          return Err(Negative(v));
        }
        out := out + [v];
    }
    assert parts[..|parts|] == parts;
    r := Ok(SortDedup(out));
  }

  lemma ElemsCons(h: real, t: seq<real>)
    ensures Elems([h] + t) == {h} + Elems(t)
  {
    assert forall y :: y in [h] + t <==> y == h || y in t;
  }

  /** Inserting keeps the list strictly ascending; the new head is the
      smaller of x and the old head. */
  lemma {:induction false} InsertAscending(x: real, s: seq<real>)
    requires StrictlyAscending(s)
    ensures StrictlyAscending(Insert(x, s))
    ensures |Insert(x, s)| > 0 && Insert(x, s)[0] == (if |s| > 0 && s[0] < x then s[0] else x)
    decreases |s|
  {
    if |s| > 0 && x > s[0] {
      var t := s[1..];
      InsertAscending(x, t);
      var r := Insert(x, s);
      var rt := Insert(x, t);
      assert r == [s[0]] + rt;
      forall j | 0 < j < |r| ensures s[0] < r[j] {
        assert r[j] == rt[j - 1];
        if |t| > 0 {
          assert rt[0] == x || rt[0] == t[0];
          assert s[0] < rt[0];
        }
      }
    }
  }

  /** Inserting adds exactly x to the values. */
  lemma {:induction false} InsertElems(x: real, s: seq<real>)
    ensures Elems(Insert(x, s)) == Elems(s) + {x}
    decreases |s|
  {
    if |s| > 0 && x > s[0] {
      var t := s[1..];
      InsertElems(x, t);
      ElemsCons(s[0], Insert(x, t));
      assert s == [s[0]] + t;
      ElemsCons(s[0], t);
    } else if |s| > 0 && x == s[0] {
      assert x in Elems(s);
    } else if |s| > 0 {
      ElemsCons(x, s);
    }
  }

  /** The result is strictly ascending and holds exactly the values of the
      input. */
  lemma {:induction false} SortDedupProperties(xs: seq<real>)
    ensures StrictlyAscending(SortDedup(xs))
    ensures Elems(SortDedup(xs)) == Elems(xs)
    decreases |xs|
  {
    if |xs| > 0 {
      var init := xs[..|xs| - 1];
      SortDedupProperties(init);
      InsertAscending(xs[|xs| - 1], SortDedup(init));
      InsertElems(xs[|xs| - 1], SortDedup(init));
      assert xs == init + [xs[|xs| - 1]];
      assert forall y :: y in xs <==> y in init || y == xs[|xs| - 1];
    }
  }

  /** Membership form of `SortDedupProperties`; nothing is lost, so the
      result is empty only for an empty input. */
  lemma SortDedupMembers(xs: seq<real>)
    ensures forall v :: v in SortDedup(xs) <==> v in xs
    ensures |SortDedup(xs)| == 0 <==> |xs| == 0
  {
    SortDedupProperties(xs);
    assert forall v :: v in SortDedup(xs) <==> v in Elems(SortDedup(xs));
    assert forall v :: v in xs <==> v in Elems(xs);
    if |xs| > 0 {
      assert xs[0] in Elems(xs);
    }
  }

  /** A strictly ascending list is determined by its set of values, so
      `SortDedup` is the one such listing of the input's values. */
  lemma {:induction false} AscendingUnique(a: seq<real>, b: seq<real>)
    requires StrictlyAscending(a) && StrictlyAscending(b)
    requires Elems(a) == Elems(b)
    ensures a == b
    decreases |a|
  {
    assert |a| > 0 ==> a[0] in Elems(a);
    assert |b| > 0 ==> b[0] in Elems(b);
    if |a| > 0 && |b| > 0 {
      assert a[0] in Elems(a) && b[0] in Elems(b);
      assert a[0] in b && b[0] in a;
      assert a[0] == b[0];
      assert a == [a[0]] + a[1..] && b == [b[0]] + b[1..];
      ElemsCons(a[0], a[1..]);
      ElemsCons(b[0], b[1..]);
      assert a[0] !in a[1..] && b[0] !in b[1..];
      assert a[0] !in Elems(a[1..]) && b[0] !in Elems(b[1..]);
      assert Elems(a[1..]) == Elems(a) - {a[0]};
      assert Elems(b[1..]) == Elems(b) - {b[0]};
      AscendingUnique(a[1..], b[1..]);
    }
  }

  /** The parse succeeds exactly when every non-blank piece parses to a
      non-negative value. */
  predicate AllAccepted(ps: seq<string>, parse: string -> Option<real>) {
    forall i :: 0 <= i < |ps| && |Trim(ps[i])| > 0 ==>
      parse(Trim(ps[i])).Some? && parse(Trim(ps[i])).value >= 0.0
  }

  /** v was read from some non-blank piece. */
  predicate ReadFrom(ps: seq<string>, parse: string -> Option<real>, v: real) {
    exists i :: 0 <= i < |ps| && |Trim(ps[i])| > 0 && parse(Trim(ps[i])) == Some(v)
  }

  predicate AllBlank(ps: seq<string>) {
    forall i :: 0 <= i < |ps| ==> |Trim(ps[i])| == 0
  }

  /** The three predicates above, split at the last piece. */
  lemma AcceptedSnoc(ps: seq<string>, parse: string -> Option<real>)
    requires |ps| > 0
    ensures var p := Trim(ps[|ps| - 1]);
      AllAccepted(ps, parse) <==>
        AllAccepted(ps[..|ps| - 1], parse) && (|p| == 0 || (parse(p).Some? && parse(p).value >= 0.0))
  {
    var init := ps[..|ps| - 1];
    assert forall i :: 0 <= i < |init| ==> init[i] == ps[i];
  }

  lemma ReadFromSnoc(ps: seq<string>, parse: string -> Option<real>, v: real)
    requires |ps| > 0
    ensures var p := Trim(ps[|ps| - 1]);
      ReadFrom(ps, parse, v) <==> ReadFrom(ps[..|ps| - 1], parse, v) || (|p| > 0 && parse(p) == Some(v))
  {
    var init := ps[..|ps| - 1];
    var n := |ps| - 1;
    var p := Trim(ps[n]);
    assert ReadFrom(ps, parse, v) ==> ReadFrom(init, parse, v) || (|p| > 0 && parse(p) == Some(v)) by {
      if ReadFrom(ps, parse, v) && !(|p| > 0 && parse(p) == Some(v)) {
        var i :| 0 <= i < |ps| && |Trim(ps[i])| > 0 && parse(Trim(ps[i])) == Some(v);
        assert i < n && init[i] == ps[i];
      }
    }
    assert ReadFrom(init, parse, v) ==> ReadFrom(ps, parse, v) by {
      if ReadFrom(init, parse, v) {
        var i :| 0 <= i < |init| && |Trim(init[i])| > 0 && parse(Trim(init[i])) == Some(v);
        assert init[i] == ps[i];
      }
    }
    assert |p| > 0 && parse(p) == Some(v) ==> ReadFrom(ps, parse, v);
  }

  lemma BlankSnoc(ps: seq<string>)
    requires |ps| > 0
    ensures AllBlank(ps) <==> AllBlank(ps[..|ps| - 1]) && |Trim(ps[|ps| - 1])| == 0
  {
    var init := ps[..|ps| - 1];
    assert forall i :: 0 <= i < |init| ==> init[i] == ps[i];
  }

  /** Collecting succeeds exactly when every non-blank piece is accepted;
      the values it collects are exactly those read from the non-blank
      pieces, and there are none exactly when every piece is blank. */
  lemma {:induction false} CollectOk(ps: seq<string>, parse: string -> Option<real>)
    ensures Collect(ps, parse).Ok? <==> AllAccepted(ps, parse)
    ensures Collect(ps, parse).Ok? ==>
      && (forall v :: v in Collect(ps, parse).value <==> ReadFrom(ps, parse, v))
      && (|Collect(ps, parse).value| == 0 <==> AllBlank(ps))
    decreases |ps|
  {
    if |ps| > 0 {
      var init := ps[..|ps| - 1];
      CollectOk(init, parse);
      AcceptedSnoc(ps, parse);
      BlankSnoc(ps);
      forall v {
        ReadFromSnoc(ps, parse, v);
      }
      var c := Collect(init, parse);
      if c.Ok? {
        var out := c.value;
        var p := Trim(ps[|ps| - 1]);
        if |p| > 0 && parse(p).Some? {
          var w := parse(p).value;
          assert forall v :: v in out + [w] <==> v in out || v == w;
        }
      }
    }
  }

  /** Every error names a non-blank piece that does not parse, or a negative
      value read from a piece. */
  lemma {:induction false} CollectErr(ps: seq<string>, parse: string -> Option<real>)
    ensures Collect(ps, parse).Err? ==> ErrorFrom(ps, parse, Collect(ps, parse).error)
    decreases |ps|
  {
    if |ps| > 0 {
      var init := ps[..|ps| - 1];
      var c := Collect(init, parse);
      if c.Err? {
        CollectErr(init, parse);
        ErrorFromSnoc(ps, parse, c.error);
      } else if Collect(ps, parse).Err? {
        var p := Trim(ps[|ps| - 1]);
        var e := Collect(ps, parse).error;
        assert |p| > 0;
        if e.ParseFailed? {
          assert e.piece == p;
        } else {
          ReadFromSnoc(ps, parse, e.v);
        }
      }
    }
  }

  /** The error names a non-blank piece that does not parse, or a negative
      value read from a piece. */
  predicate ErrorFrom(ps: seq<string>, parse: string -> Option<real>, e: MuError) {
    match e
      case ParseFailed(p) => |p| > 0 && parse(p).None? && exists i :: 0 <= i < |ps| && Trim(ps[i]) == p
      case Negative(v) => v < 0.0 && ReadFrom(ps, parse, v)
  }

  lemma ErrorFromSnoc(ps: seq<string>, parse: string -> Option<real>, e: MuError)
    requires |ps| > 0 && ErrorFrom(ps[..|ps| - 1], parse, e)
    ensures ErrorFrom(ps, parse, e)
  {
    var init := ps[..|ps| - 1];
    if e.ParseFailed? {
      var i :| 0 <= i < |init| && Trim(init[i]) == e.piece;
      assert init[i] == ps[i];
    } else {
      ReadFromSnoc(ps, parse, e.v);
    }
  }

  /** `parse_mu_set` succeeds exactly when every non-blank piece parses to
      a non-negative value; it then returns the distinct values read,
      strictly ascending, and the list is empty exactly when every piece is
      blank (so the empty text gives an empty list, which the caller then
      rejects); a failure names the offending piece or value. */
  lemma ParsedMuSetProperties(s: string, parse: string -> Option<real>)
    ensures ParsedMuSet(s, parse).Ok? <==> AllAccepted(Split(s), parse)
    ensures ParsedMuSet(s, parse).Ok? ==>
      var xs := ParsedMuSet(s, parse).value;
      && StrictlyAscending(xs)
      && (forall v :: v in xs <==> ReadFrom(Split(s), parse, v))
      && (forall v :: v in xs ==> v >= 0.0)
      && (|xs| == 0 <==> AllBlank(Split(s)))
    ensures ParsedMuSet(s, parse).Err? ==> ErrorFrom(Split(s), parse, ParsedMuSet(s, parse).error)
  {
    var ps := Split(s);
    CollectOk(ps, parse);
    CollectErr(ps, parse);
    var c := Collect(ps, parse);
    if c.Ok? {
      SortDedupProperties(c.value);
      SortDedupMembers(c.value);
      var xs := SortDedup(c.value);
      forall v | v in xs ensures v >= 0.0 {
        assert ReadFrom(ps, parse, v);
        var i :| 0 <= i < |ps| && |Trim(ps[i])| > 0 && parse(Trim(ps[i])) == Some(v);
      }
    }
  }

  /** The empty text parses to the empty list. */
  lemma ParsedMuSetEmptyText(parse: string -> Option<real>)
    ensures ParsedMuSet("", parse) == Ok([])
  {
    assert Split("") == [""];
    assert Trim("") == "";
    assert [""][..0] == [];
  }

  lemma SplitExample()
    ensures Split("10,2,2,5") == ["10", "2", "2", "5"]
  {
    SplitJoin(["10", "2", "2", "5"]);
    assert Join(["5"]) == "5";
    assert Join(["2", "5"]) == "2,5";
    assert Join(["2", "2", "5"]) == "2,2,5";
    assert Join(["10", "2", "2", "5"]) == "10,2,2,5";
  }

  lemma TrimDigits()
    ensures Trim("10") == "10" && Trim("2") == "2" && Trim("5") == "5"
  {
    assert !IsWhite('1') && !IsWhite('0') && !IsWhite('2') && !IsWhite('5');
    assert TrimStart("10") == "10" && TrimEnd("10") == "10";
    assert TrimStart("2") == "2" && TrimEnd("2") == "2";
    assert TrimStart("5") == "5" && TrimEnd("5") == "5";
  }

  /** One accepted piece appends its value. */
  lemma CollectValue(ps: seq<string>, i: int, parse: string -> Option<real>, out: seq<real>, v: real)
    requires 0 <= i < |ps| && Collect(ps[..i], parse) == Ok(out)
    requires |Trim(ps[i])| > 0 && parse(Trim(ps[i])) == Some(v) && v >= 0.0
    ensures Collect(ps[..i + 1], parse) == Ok(out + [v])
  {
    CollectSnoc(ps, i, parse);
  }

  lemma CollectExample(ps: seq<string>, parse: string -> Option<real>)
    requires |ps| == 4
    requires parse(Trim(ps[0])) == Some(10.0) && parse(Trim(ps[1])) == Some(2.0)
    requires parse(Trim(ps[2])) == Some(2.0) && parse(Trim(ps[3])) == Some(5.0)
    requires |Trim(ps[0])| > 0 && |Trim(ps[1])| > 0 && |Trim(ps[2])| > 0 && |Trim(ps[3])| > 0
    ensures Collect(ps, parse) == Ok([10.0, 2.0, 2.0, 5.0])
  {
    var e: seq<real> := [];
    assert ps[..0] == [];
    CollectValue(ps, 0, parse, e, 10.0);
    assert e + [10.0] == [10.0];
    CollectValue(ps, 1, parse, [10.0], 2.0);
    assert [10.0] + [2.0] == [10.0, 2.0];
    CollectValue(ps, 2, parse, [10.0, 2.0], 2.0);
    assert [10.0, 2.0] + [2.0] == [10.0, 2.0, 2.0];
    CollectValue(ps, 3, parse, [10.0, 2.0, 2.0], 5.0);
    assert [10.0, 2.0, 2.0] + [5.0] == [10.0, 2.0, 2.0, 5.0];
    assert ps[..4] == ps;
  }

  lemma SortDedupExample()
    ensures SortDedup([10.0, 2.0, 2.0, 5.0]) == [2.0, 5.0, 10.0]
  {
    var xs := [10.0, 2.0, 2.0, 5.0];
    assert xs[..1] == [10.0] && xs[..1][..0] == [];
    assert xs[..2] == [10.0, 2.0] && xs[..2][..1] == [10.0];
    assert xs[..3] == [10.0, 2.0, 2.0] && xs[..3][..2] == [10.0, 2.0];
    assert xs[..3] == xs[..|xs| - 1];
    assert SortDedup(xs[..1]) == [10.0];
    assert SortDedup(xs[..2]) == [2.0, 10.0];
    assert SortDedup(xs[..3]) == [2.0, 10.0];
    assert Insert(5.0, [10.0]) == [5.0, 10.0];
  }

  /** The example "10,2,2,5" becomes the ascending set [2, 5, 10]. */
  lemma ParsedMuSetExample(parse: string -> Option<real>)
    requires parse("10") == Some(10.0) && parse("2") == Some(2.0) && parse("5") == Some(5.0)
    ensures ParsedMuSet("10,2,2,5", parse) == Ok([2.0, 5.0, 10.0])
  {
    var ps := Split("10,2,2,5");
    SplitExample();
    TrimDigits();
    assert Trim(ps[0]) == "10" && Trim(ps[1]) == "2" && Trim(ps[2]) == "2" && Trim(ps[3]) == "5";
    CollectExample(ps, parse);
    SortDedupExample();
  }
}
