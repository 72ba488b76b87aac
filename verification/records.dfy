/** Runs of records stored back to back.  The vertex, index and mesh loops of the loader
    all read a count of records the same way, so that loop is defined once here.  It takes
    the record's parser and encoder as parameters, and the lemmas about it are proved for
    any record parser that satisfies their hypotheses. */
module Records {
  import opened Outcomes
  import opened Bytes

  /** Reads one record from the front of a byte string and returns it with the bytes that
      follow, or `None` when the bytes end too early. */
  type Parser<!T> = seq<byte> -> Option<(T, seq<byte>)>

  /** `n` records read one after another, appended in the order they were read.  The first
      record that cannot be read makes the whole run fail. */
  function ParseRepeated<T>(parse: Parser<T>, n: nat, s: seq<byte>): (r: Option<(seq<T>, seq<byte>)>)
    ensures r.Some? ==> |r.value.0| == n
  {
    if n == 0 then Some(([], s))
    else
      match parse(s)
      case None => None
      case Some((x, s1)) =>
        match ParseRepeated(parse, n - 1, s1)
        case None => None
        case Some((xs, s2)) => Some(([x] + xs, s2))
  }

  /** The records written back to back, with no count and no separator. */
  function EncodeRepeated<T>(encode: T -> seq<byte>, xs: seq<T>): seq<byte>
  {
    if |xs| == 0 then [] else encode(xs[0]) + EncodeRepeated(encode, xs[1..])
  }

  /** Records of a fixed encoded size take up that size times their number. */
  lemma {:induction false} EncodeRepeatedLength<T>(encode: T -> seq<byte>, size: nat, xs: seq<T>)
    requires forall x :: |encode(x)| == size
    ensures |EncodeRepeated(encode, xs)| == size * |xs|
  {
    if |xs| > 0 {
      EncodeRepeatedLength(encode, size, xs[1..]);
    }
  }

  /** The loop reads back every run of records the record parser reads back one by one,
      whatever follows the run. */
  lemma {:induction false} ParseEncodeRepeated<T>(parse: Parser<T>, encode: T -> seq<byte>,
                                                  xs: seq<T>, rest: seq<byte>)
    requires forall i, r :: 0 <= i < |xs| ==> parse(encode(xs[i]) + r) == Some((xs[i], r))
    ensures ParseRepeated(parse, |xs|, EncodeRepeated(encode, xs) + rest) == Some((xs, rest))
  {
    if |xs| > 0 {
      var tail := EncodeRepeated(encode, xs[1..]) + rest;
      Append3(encode(xs[0]), EncodeRepeated(encode, xs[1..]), rest);
      assert parse(encode(xs[0]) + tail) == Some((xs[0], tail));
      assert forall i, r :: 0 <= i < |xs[1..]| ==> parse(encode(xs[1..][i]) + r) == Some((xs[1..][i], r)) by {
        forall i, r | 0 <= i < |xs[1..]|
          ensures parse(encode(xs[1..][i]) + r) == Some((xs[1..][i], r))
        {
          assert xs[1..][i] == xs[i + 1];
        }
      }
      ParseEncodeRepeated(parse, encode, xs[1..], rest);
      assert [xs[0]] + xs[1..] == xs;
    } else {
      assert EncodeRepeated(encode, xs) + rest == rest;
    }
  }

  /** When every record the parser accepts re-encodes to the bytes it consumed, so does
      every run the loop accepts. */
  lemma {:induction false} ParseRepeatedConsumes<T>(parse: Parser<T>, encode: T -> seq<byte>,
                                                    n: nat, s: seq<byte>)
    requires forall t :: parse(t).Some? ==> t == encode(parse(t).value.0) + parse(t).value.1
    requires ParseRepeated(parse, n, s).Some?
    ensures s == EncodeRepeated(encode, ParseRepeated(parse, n, s).value.0)
                 + ParseRepeated(parse, n, s).value.1
  {
    if n > 0 {
      var (x, s1) := parse(s).value;
      var (xs, s2) := ParseRepeated(parse, n - 1, s1).value;
      assert ParseRepeated(parse, n, s).value == ([x] + xs, s2);
      ParseRepeatedConsumes(parse, encode, n - 1, s1);
      assert ([x] + xs)[1..] == xs;
      Append3(encode(x), EncodeRepeated(encode, xs), s2);
    } else {
      assert EncodeRepeated(encode, []) + s == s;
    }
  }

  /** Every record of an accepted run satisfies whatever the parser guarantees of a single
      record. */
  lemma {:induction false} ParseRepeatedAll<T>(parse: Parser<T>, valid: T -> bool, n: nat, s: seq<byte>)
    requires forall t :: parse(t).Some? ==> valid(parse(t).value.0)
    requires ParseRepeated(parse, n, s).Some?
    ensures forall i :: 0 <= i < n ==> valid(ParseRepeated(parse, n, s).value.0[i])
  {
    if n > 0 {
      var (x, s1) := parse(s).value;
      var (xs, s2) := ParseRepeated(parse, n - 1, s1).value;
      assert ParseRepeated(parse, n, s).value.0 == [x] + xs;
      ParseRepeatedAll(parse, valid, n - 1, s1);
    }
  }

  /** A record parser that needs exactly `size` bytes and consumes exactly them. */
  ghost predicate FixedSize<T>(parse: Parser<T>, size: nat)
  {
    forall t :: (parse(t).Some? <==> |t| >= size)
                && (parse(t).Some? ==> parse(t).value.1 == t[size..])
  }

  /** `size * n`, spelled out as repeated addition so that the lemmas below stay linear. */
  function Times(size: nat, n: nat): (t: nat)
    ensures t == size * n
  {
    if n == 0 then 0 else size + Times(size, n - 1)
  }

  /** With fixed-size records, `n` of them can be read exactly when `size * n` bytes remain,
      and the run ends at byte `size * n`. */
  lemma {:induction false} ParseRepeatedFixed<T>(parse: Parser<T>, size: nat, n: nat, s: seq<byte>)
    requires FixedSize(parse, size)
    ensures ParseRepeated(parse, n, s).Some? <==> |s| >= Times(size, n)
    ensures ParseRepeated(parse, n, s).Some? ==> ParseRepeated(parse, n, s).value.1 == s[Times(size, n)..]
  {
    if n > 0 {
      if |s| >= size {
        var s1 := parse(s).value.1;
        assert s1 == s[size..];
        ParseRepeatedFixed(parse, size, n - 1, s1);
        if |s| >= Times(size, n) {
          assert s1[Times(size, n - 1)..] == s[Times(size, n)..];
        }
      } else {
        assert parse(s).None?;
      }
    }
  }

  /** With fixed-size records, a run of `n > 0` is the record at the front followed by the
      run of `n - 1` that starts `size` bytes later. */
  lemma ParseRepeatedStep<T>(parse: Parser<T>, size: nat, n: nat, s: seq<byte>)
    requires FixedSize(parse, size)
    requires n > 0 && |s| >= Times(size, n)
    ensures |s| >= size && parse(s).Some? && parse(s).value.1 == s[size..]
    ensures |s[size..]| >= Times(size, n - 1)
    ensures ParseRepeated(parse, n, s).Some? && ParseRepeated(parse, n - 1, s[size..]).Some?
    ensures ParseRepeated(parse, n, s).value.0
            == [parse(s).value.0] + ParseRepeated(parse, n - 1, s[size..]).value.0
  {
    ParseRepeatedFixed(parse, size, n - 1, s[size..]);
  }

  /** With fixed-size records, record `j` of a run is the record starting at byte `size * j`. */
  lemma {:induction false} ParseRepeatedAt<T>(parse: Parser<T>, size: nat, n: nat, s: seq<byte>, j: nat)
    requires FixedSize(parse, size)
    requires |s| >= Times(size, n) && j < n
    ensures ParseRepeated(parse, n, s).Some?
    ensures |s| >= Times(size, j) + size
    ensures ParseRepeated(parse, n, s).value.0[j] == parse(s[Times(size, j)..]).value.0
  {
    ParseRepeatedStep(parse, size, n, s);
    if j > 0 {
      ParseRepeatedAt(parse, size, n - 1, s[size..], j - 1);
      assert s[size..][Times(size, j - 1)..] == s[Times(size, j)..];
    } else {
      assert s[Times(size, j)..] == s;
    }
  }
}
