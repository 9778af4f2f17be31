/**
 * String helpers shared by subjects, patterns and the parser: Rust's
 * `str::split(sep)`, `[&str]::join(sep)` and the token character class
 * `c.is_alphanumeric() || c == '_' || c == '-'`.
 *
 * Rust's `char::is_alphanumeric` accepts every Unicode letter and digit; the
 * model uses the ASCII letters and digits only.
 */
module Text {

  /** The token character class, restricted to ASCII. */
  predicate IsTokenChar(c: char) {
    ('a' <= c <= 'z') || ('A' <= c <= 'Z') || ('0' <= c <= '9') || c == '_' || c == '-'
  }

  /** Every character of `s` is a token character (vacuously true of ""). */
  predicate AllTokenChars(s: string) {
    forall i :: 0 <= i < |s| ==> IsTokenChar(s[i])
  }

  /** A non-empty run of token characters: one valid subject token. */
  predicate IsToken(s: string) {
    |s| > 0 && AllTokenChars(s)
  }

  /** Bytes one character takes in UTF-8. */
  function Utf8Width(c: char): nat {
    if c as int < 0x80 then 1 else if c as int < 0x800 then 2 else if c as int < 0x1_0000 then 3 else 4
  }

  /** `str::len`: the UTF-8 length in bytes, not the character count. */
  function Utf8Len(s: string): (n: nat)
    ensures n >= |s|
  {
    if |s| == 0 then 0 else Utf8Width(s[0]) + Utf8Len(s[1..])
  }

  /** For token text (ASCII only) bytes and characters agree. */
  lemma {:induction false} TokenUtf8Len(s: string)
    requires AllTokenChars(s)
    ensures Utf8Len(s) == |s|
  {
    if |s| > 0 {
      assert AllTokenChars(s[1..]) by {
        assert forall i :: 0 <= i < |s[1..]| ==> s[1..][i] == s[i + 1];
      }
      TokenUtf8Len(s[1..]);
    }
  }

  predicate StartsWith(s: string, c: char) {
    |s| > 0 && s[0] == c
  }

  /** `parts.join(sep)`: the pieces with one separator between neighbours. */
  function Join(parts: seq<string>, sep: string): string {
    if |parts| == 0 then ""
    else if |parts| == 1 then parts[0]
    else parts[0] + sep + Join(parts[1..], sep)
  }

  /**
   * `s.split(sep)`: the maximal separator-free pieces between separators.
   * Like Rust's iterator it always yields at least one piece ("" gives [""],
   * a leading or trailing separator gives an empty piece).
   */
  function Split(s: string, sep: char): (r: seq<string>)
    ensures |r| >= 1
    ensures forall i :: 0 <= i < |r| ==> sep !in r[i]
    ensures Join(r, [sep]) == s
    decreases |s|
  {
    if |s| == 0 then [""]
    else if s[0] == sep then [""] + Split(s[1..], sep)
    else
      var rest := Split(s[1..], sep);
      assert Join(rest, [sep]) == s[1..];
      JoinConsHead(s[0], rest, [sep]);
      [[s[0]] + rest[0]] + rest[1..]
  }

  /** Prepending one character to the first piece prepends it to the join. */
  lemma JoinConsHead(c: char, parts: seq<string>, sep: string)
    requires |parts| >= 1
    ensures Join([[c] + parts[0]] + parts[1..], sep) == [c] + Join(parts, sep)
  {
    var q := [[c] + parts[0]] + parts[1..];
    if |parts| > 1 {
      assert q[1..] == parts[1..];
    }
  }

  /** A separator-free prefix glues onto the first piece of the split. */
  lemma {:induction false} SplitPrefix(a: string, rest: string, sep: char)
    requires sep !in a
    ensures Split(a + rest, sep) == [a + Split(rest, sep)[0]] + Split(rest, sep)[1..]
    decreases |a|
  {
    if |a| > 0 {
      var s := a + rest;
      assert s[0] == a[0] && s[1..] == a[1..] + rest;
      SplitPrefix(a[1..], rest, sep);
      assert [a[0]] + (a[1..] + Split(rest, sep)[0]) == a + Split(rest, sep)[0];
    } else {
      assert a + rest == rest;
      assert a + Split(rest, sep)[0] == Split(rest, sep)[0];
      assert [Split(rest, sep)[0]] + Split(rest, sep)[1..] == Split(rest, sep);
    }
  }

  /** A separator-free string splits into itself. */
  lemma SplitNoSep(a: string, sep: char)
    requires sep !in a
    ensures Split(a, sep) == [a]
  {
    SplitPrefix(a, "", sep);
    assert a + "" == a;
  }

  /** Splitting after a separator-free piece and a separator peels that piece off. */
  lemma SplitPieceThenSep(a: string, b: string, sep: char)
    requires sep !in a
    ensures Split(a + [sep] + b, sep) == [a] + Split(b, sep)
  {
    var t := [sep] + b;
    assert t[0] == sep && t[1..] == b;
    var st := Split(t, sep);
    assert st == [""] + Split(b, sep);
    assert a + [sep] + b == a + t;
    SplitPrefix(a, t, sep);
    assert st[0] == "" && st[1..] == Split(b, sep);
    assert a + st[0] == a;
  }

  /**
   * The other round trip: joining separator-free pieces and splitting again
   * gives the pieces back (at least one piece, as `split` never yields none).
   */
  lemma {:induction false} SplitJoin(parts: seq<string>, sep: char)
    requires |parts| >= 1
    requires forall i :: 0 <= i < |parts| ==> sep !in parts[i]
    ensures Split(Join(parts, [sep]), sep) == parts
    decreases |parts|
  {
    if |parts| == 1 {
      SplitNoSep(parts[0], sep);
    } else {
      SplitJoin(parts[1..], sep);
      SplitPieceThenSep(parts[0], Join(parts[1..], [sep]), sep);
      assert [parts[0]] + parts[1..] == parts;
    }
  }

  /** Joining two non-empty lists puts one separator between their joins. */
  lemma {:induction false} JoinAppend(p: seq<string>, q: seq<string>, sep: string)
    requires |p| >= 1 && |q| >= 1
    ensures Join(p + q, sep) == Join(p, sep) + sep + Join(q, sep)
    decreases |p|
  {
    if |p| > 1 {
      assert (p + q)[1..] == p[1..] + q;
      JoinAppend(p[1..], q, sep);
    } else {
      assert (p + q)[1..] == q;
    }
  }

  /**
   * Splitting at a separator splits each side independently: the pieces of
   * both sides, joined, give back the whole string.
   */
  lemma {:induction false} SplitAtSep(a: string, b: string, sep: char)
    ensures Split(a + [sep] + b, sep) == Split(a, sep) + Split(b, sep)
  {
    var p, q := Split(a, sep), Split(b, sep);
    JoinAppend(p, q, [sep]);
    assert forall i :: 0 <= i < |p + q| ==> sep !in (p + q)[i] by {
      forall i | 0 <= i < |p + q|
        ensures sep !in (p + q)[i]
      {
        if i >= |p| {
          assert (p + q)[i] == q[i - |p|];
        }
      }
    }
    SplitJoin(p + q, sep);
  }

  /** A string splits into a single piece exactly when it has no separator. */
  lemma SplitSingle(a: string, sep: char)
    ensures |Split(a, sep)| == 1 <==> sep !in a
    ensures |Split(a, sep)| == 1 ==> Split(a, sep) == [a]
  {
    if sep !in a {
      SplitNoSep(a, sep);
    }
  }

  /** Token characters never include the subject separator. */
  lemma TokenHasNoDot(s: string)
    requires AllTokenChars(s)
    ensures '.' !in s
  {
  }

  /** A join of four pieces is the four pieces with separators in between. */
  lemma JoinFour(a: string, b: string, c: string, d: string, sep: string)
    ensures Join([a, b, c, d], sep) == a + sep + b + sep + c + sep + d
  {
    assert [a, b, c, d][1..] == [b, c, d];
    assert [b, c, d][1..] == [c, d];
    assert [c, d][1..] == [d];
    assert Join([c, d], sep) == c + sep + d;
    assert Join([b, c, d], sep) == b + sep + (c + sep + d);
    assert Join([a, b, c, d], sep) == a + sep + (b + sep + (c + sep + d));
  }
}
