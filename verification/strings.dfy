/** The few `str` operations of Python the modelled code relies on. */
module Strings {

  /** `sep.join(parts)`. */
  function Join(sep: string, parts: seq<string>): string
  {
    if |parts| == 0 then ""
    else if |parts| == 1 then parts[0]
    else parts[0] + sep + Join(sep, parts[1..])
  }

  /** Joining one more part appends the separator and the part. */
  lemma {:induction false} JoinSnoc(sep: string, parts: seq<string>, last: string)
    requires |parts| > 0
    ensures Join(sep, parts + [last]) == Join(sep, parts) + sep + last
    decreases |parts|
  {
    if |parts| == 1 {
      assert parts + [last] == [parts[0], last];
      assert ([parts[0], last])[1..] == [last];
    } else {
      assert (parts + [last])[1..] == parts[1..] + [last];
      JoinSnoc(sep, parts[1..], last);
    }
  }

  /** `s.split(sep)` for a one-character separator: the pieces between separators, at least one. */
  function Split(s: string, sep: char): (r: seq<string>)
    ensures |r| > 0
    ensures forall i :: 0 <= i < |r| ==> sep !in r[i]
  {
    if |s| == 0 then [""]
    else
      var rest := Split(s[1..], sep);
      if s[0] == sep then [""] + rest
      else [[s[0]] + rest[0]] + rest[1..]
  }

  /** A piece free of the separator followed by the separator splits off as the first piece. */
  lemma {:induction false} SplitPrefix(p: string, sep: char, t: string)
    requires sep !in p
    ensures Split(p + [sep] + t, sep) == [p] + Split(t, sep)
    decreases |p|
  {
    if |p| == 0 {
      assert p + [sep] + t == [sep] + t;
      assert ([sep] + t)[1..] == t;
    } else {
      assert (p + [sep] + t)[1..] == p[1..] + [sep] + t;
      SplitPrefix(p[1..], sep, t);
      assert [p[0]] + p[1..] == p;
    }
  }

  /** A string free of the separator splits into itself alone. */
  lemma {:induction false} SplitNoSeparator(p: string, sep: char)
    requires sep !in p
    ensures Split(p, sep) == [p]
    decreases |p|
  {
    if |p| > 0 {
      SplitNoSeparator(p[1..], sep);
      assert [p[0]] + p[1..] == p;
    }
  }

  /** Splitting a join undoes it when no part contains the separator. */
  lemma {:induction false} SplitJoin(parts: seq<string>, sep: char)
    requires |parts| > 0
    requires forall i :: 0 <= i < |parts| ==> sep !in parts[i]
    ensures Split(Join([sep], parts), sep) == parts
    decreases |parts|
  {
    if |parts| == 1 {
      SplitNoSeparator(parts[0], sep);
    } else {
      SplitJoin(parts[1..], sep);
      SplitPrefix(parts[0], sep, Join([sep], parts[1..]));
      assert [parts[0]] + parts[1..] == parts;
    }
  }

  /** The characters of `s` for which `keep` holds, in order (`''.join(c for c in s if keep(c))`). */
  function Filter(keep: char -> bool, s: string): (r: string)
    ensures |r| <= |s|
    ensures forall i :: 0 <= i < |r| ==> keep(r[i])
    ensures forall c :: c in r ==> c in s
  {
    if |s| == 0 then "" else (if keep(s[0]) then [s[0]] else "") + Filter(keep, s[1..])
  }

  /** How many characters of `s` satisfy `keep`. */
  function Count(keep: char -> bool, s: string): nat
    decreases |s|
  {
    if |s| == 0 then 0 else (if keep(s[0]) then 1 else 0) + Count(keep, s[1..])
  }

  /**
   * Filtering keeps every passing character, in order: the result has one character per passing
   * character of `s`, and the passing character at `i` lands after the ones before it.
   */
  lemma {:induction false} FilterPlaces(keep: char -> bool, s: string)
    ensures |Filter(keep, s)| == Count(keep, s)
    ensures forall i :: 0 <= i < |s| && keep(s[i]) ==>
              Count(keep, s[..i]) < |Filter(keep, s)| && Filter(keep, s)[Count(keep, s[..i])] == s[i]
    decreases |s|
  {
    if |s| > 0 {
      var r, rest := Filter(keep, s), Filter(keep, s[1..]);
      var h := if keep(s[0]) then 1 else 0;
      FilterPlaces(keep, s[1..]);
      forall i | 0 <= i < |s| && keep(s[i])
        ensures Count(keep, s[..i]) < |r| && r[Count(keep, s[..i])] == s[i]
      {
        if i == 0 {
          assert s[..0] == [];
        } else {
          assert s[..i][1..] == s[1..][..i - 1];
          assert Count(keep, s[..i]) == h + Count(keep, s[1..][..i - 1]);
          assert s[1..][i - 1] == s[i];
        }
      }
    }
  }

  /** Filtering keeps a string unchanged exactly when every character passes. */
  lemma {:induction false} FilterIdentity(keep: char -> bool, s: string)
    ensures Filter(keep, s) == s <==> forall i :: 0 <= i < |s| ==> keep(s[i])
    decreases |s|
  {
    if |s| > 0 {
      FilterIdentity(keep, s[1..]);
      if !keep(s[0]) {
        assert |Filter(keep, s)| < |s|;
      } else {
        assert forall i :: 1 <= i < |s| ==> s[1..][i - 1] == s[i];
      }
    }
  }

  /** `n` copies of `c`. */
  function Repeat(c: char, n: nat): (r: string)
    ensures |r| == n
    ensures forall i :: 0 <= i < n ==> r[i] == c
  {
    if n == 0 then "" else [c] + Repeat(c, n - 1)
  }

  /** Python's `needle in hay` on strings. */
  predicate IsSubstring(needle: string, hay: string)
    decreases |hay|
  {
    needle <= hay || (|hay| > 0 && IsSubstring(needle, hay[1..]))
  }

  /** `needle in hay` holds exactly when some slice of `hay` is `needle`. */
  lemma {:induction false} SubstringIsSlice(needle: string, hay: string)
    ensures IsSubstring(needle, hay) <==> exists i, j :: 0 <= i <= j <= |hay| && hay[i..j] == needle
    decreases |hay|
  {
    if IsSubstring(needle, hay) {
      if needle <= hay {
        assert hay[0..|needle|] == needle;
      } else {
        SubstringIsSlice(needle, hay[1..]);
        var i, j :| 0 <= i <= j <= |hay| - 1 && hay[1..][i..j] == needle;
        assert hay[1..][i..j] == hay[i + 1..j + 1];
      }
    } else if exists i, j :: 0 <= i <= j <= |hay| && hay[i..j] == needle {
      var i, j :| 0 <= i <= j <= |hay| && hay[i..j] == needle;
      if i > 0 {
        assert hay[1..][i - 1..j - 1] == needle;
        SubstringIsSlice(needle, hay[1..]);
      }
    }
  }

  /** `s.replace(c, "")` for one character `c`. */
  function RemoveChar(s: string, c: char): (r: string)
    ensures c !in r
    ensures forall d :: d != c ==> (d in r <==> d in s)
  {
    if |s| == 0 then ""
    else (if s[0] == c then "" else [s[0]]) + RemoveChar(s[1..], c)
  }

  /** `str(n)` for a natural number: its decimal digits, most significant first. */
  function NatToString(n: nat): (r: string)
    ensures |r| > 0
    ensures forall i :: 0 <= i < |r| ==> '0' <= r[i] <= '9'
    decreases n
  {
    if n < 10 then [Digit(n)] else NatToString(n / 10) + [Digit(n % 10)]
  }

  function Digit(d: nat): (c: char)
    requires d < 10
    ensures '0' <= c <= '9'
  {
    ['0', '1', '2', '3', '4', '5', '6', '7', '8', '9'][d]
  }

  /** Joining a split gives back the string. */
  lemma {:induction false} JoinSplit(s: string, sep: char)
    ensures Join([sep], Split(s, sep)) == s
    decreases |s|
  {
    if |s| > 0 {
      var rest := Split(s[1..], sep);
      JoinSplit(s[1..], sep);
      if s[0] == sep {
        assert Split(s, sep) == [""] + rest;
        JoinCons([sep], "", rest);
        assert [sep] + s[1..] == s;
      } else {
        assert Split(s, sep) == [[s[0]] + rest[0]] + rest[1..];
        JoinFirstPrefix([sep], [s[0]], rest);
        assert [s[0]] + s[1..] == s;
      }
    }
  }

  /** A part in front of a non-empty list is joined with one separator. */
  lemma JoinCons(sep: string, first: string, rest: seq<string>)
    requires |rest| > 0
    ensures Join(sep, [first] + rest) == first + sep + Join(sep, rest)
  {
    assert ([first] + rest)[1..] == rest;
  }

  /** Extending the first part with a prefix extends the join with it. */
  lemma JoinFirstPrefix(sep: string, x: string, parts: seq<string>)
    requires |parts| > 0
    ensures Join(sep, [x + parts[0]] + parts[1..]) == x + Join(sep, parts)
  {
    var q := [x + parts[0]] + parts[1..];
    if |parts| > 1 {
      assert q[1..] == parts[1..];
    }
  }
}
