/** The few Python `str` operations the log parsers use, modelled exactly on `seq<char>`. */
module PyStr {

  /** Position of the first `c` in `s`, or `|s|` when `c` does not occur. */
  function IndexOf(s: string, c: char): (i: nat)
    ensures i <= |s|
    ensures i < |s| <==> c in s
    ensures i < |s| ==> s[i] == c
    ensures forall j :: 0 <= j < i ==> s[j] != c
    decreases |s|
  {
    if s == [] then 0
    else if s[0] == c then 0
    else 1 + IndexOf(s[1..], c)
  }

  /** The first `c` is at `i` when `s[i]` is `c` and no earlier character is. */
  lemma {:induction false} IndexOfIs(s: string, c: char, i: nat)
    requires i < |s| && s[i] == c
    requires forall j :: 0 <= j < i ==> s[j] != c
    ensures IndexOf(s, c) == i
    decreases i
  {
    if i > 0 {
      IndexOfIs(s[1..], c, i - 1);
    }
  }

  /** A string that starts with a prefix free of `c` has its first `c` after that prefix. */
  lemma {:induction false} IndexOfPastPrefix(s: string, c: char, prefix: string)
    requires StartsWith(s, prefix) && c !in prefix
    ensures IndexOf(s, c) >= |prefix|
    decreases |prefix|
  {
    if prefix != [] {
      assert s[0] == prefix[0];
      assert s[1..][..|prefix| - 1] == prefix[1..];
      IndexOfPastPrefix(s[1..], c, prefix[1..]);
    }
  }

  /** A prefix of `s` that starts with `p` makes `s` start with `p`. */
  lemma PrefixStartsWith(s: string, k: nat, p: string)
    requires k <= |s| && StartsWith(s[..k], p)
    ensures StartsWith(s, p)
  {
    assert s[..k][..|p|] == s[..|p|];
  }

  /** The longest prefix of `s` that does not contain `c`. */
  function TakeUntil(s: string, c: char): (t: string)
    ensures c !in t
  {
    s[..IndexOf(s, c)]
  }

  /** Cutting off `n` characters before the first `c` moves the first `c` back by `n`. */
  lemma {:induction false} IndexOfSuffix(s: string, c: char, n: nat)
    requires n <= IndexOf(s, c)
    ensures IndexOf(s[n..], c) == IndexOf(s, c) - n
    decreases n
  {
    if n > 0 {
      assert s[1..][n - 1..] == s[n..];
      IndexOfSuffix(s[1..], c, n - 1);
    }
  }

  /** Cutting off a `c`-free prefix of `n` characters leaves the text up to the first `c` otherwise
      unchanged. */
  lemma TakeUntilSuffix(s: string, c: char, n: nat)
    requires n <= IndexOf(s, c)
    ensures TakeUntil(s[n..], c) == s[..IndexOf(s, c)][n..]
  {
    IndexOfSuffix(s, c, n);
  }

  /** Python's `s.split(sep)` for a one-character separator: every occurrence of `sep` cuts,
      and empty tokens are kept, so `"".split("|") == [""]` and `"a||b"` gives three tokens. */
  function Split(s: string, sep: char): (r: seq<string>)
    ensures |r| >= 1
    ensures forall i :: 0 <= i < |r| ==> sep !in r[i]
    decreases |s|
  {
    if s == [] then [""]
    else if s[0] == sep then [""] + Split(s[1..], sep)
    else
      var rest := Split(s[1..], sep);
      [[s[0]] + rest[0]] + rest[1..]
  }

  /** Python's `sep.join(tokens)`. */
  function Join(tokens: seq<string>, sep: char): string
    decreases |tokens|
  {
    if tokens == [] then ""
    else if |tokens| == 1 then tokens[0]
    else tokens[0] + [sep] + Join(tokens[1..], sep)
  }

  /** Python's `s.startswith(prefix)`. */
  predicate StartsWith(s: string, prefix: string) {
    |prefix| <= |s| && s[..|prefix|] == prefix
  }

  /** Python's `needle in hay` on two strings: a substring test. */
  predicate Contains(hay: string, needle: string)
    decreases |hay|
  {
    StartsWith(hay, needle) || (hay != [] && Contains(hay[1..], needle))
  }

  /** `needle` occurs in `hay` starting at position `i`. */
  predicate OccursAt(hay: string, needle: string, i: int) {
    0 <= i && i + |needle| <= |hay| && hay[i..i + |needle|] == needle
  }

  /** A slice of the tail is the slice of the whole string one position further on. */
  lemma TailSlice(hay: string, i: nat, n: nat)
    requires i + n < |hay|
    ensures hay[1..][i..i + n] == hay[i + 1..i + 1 + n]
  {
  }

  /** The substring test holds exactly when `needle` occurs at some position of `hay`. */
  lemma {:induction false} ContainsIff(hay: string, needle: string)
    ensures Contains(hay, needle) <==> exists i :: OccursAt(hay, needle, i)
    decreases |hay|
  {
    if hay != [] {
      ContainsIff(hay[1..], needle);
      if StartsWith(hay, needle) {
        assert OccursAt(hay, needle, 0);
      }
      if Contains(hay[1..], needle) {
        var i :| OccursAt(hay[1..], needle, i);
        TailSlice(hay, i, |needle|);
        assert OccursAt(hay, needle, i + 1);
      }
      if exists i :: OccursAt(hay, needle, i) {
        var i :| OccursAt(hay, needle, i);
        if i > 0 {
          TailSlice(hay, i - 1, |needle|);
          assert OccursAt(hay[1..], needle, i - 1);
        }
      }
    } else {
      if exists i :: OccursAt(hay, needle, i) {
        var i :| OccursAt(hay, needle, i);
        assert needle == [];
      }
      if Contains(hay, needle) {
        assert OccursAt(hay, needle, 0);
      }
    }
  }

  /** A string without the separator splits into itself alone. */
  lemma {:induction false} SplitNoSep(s: string, sep: char)
    requires sep !in s
    ensures Split(s, sep) == [s]
    decreases |s|
  {
    if s != [] {
      SplitNoSep(s[1..], sep);
      assert [s[0]] + s[1..] == s;
    }
  }

  /** The first token is everything before the first separator. */
  lemma {:induction false} SplitHead(s: string, sep: char)
    ensures Split(s, sep)[0] == TakeUntil(s, sep)
    decreases |s|
  {
    if s != [] && s[0] != sep {
      SplitHead(s[1..], sep);
      assert [s[0]] + s[1..][..IndexOf(s[1..], sep)] == s[..IndexOf(s, sep)];
    }
  }

  /** After the first separator, the remaining tokens are the split of what follows it. */
  lemma {:induction false} SplitTail(s: string, sep: char)
    requires sep in s
    ensures |Split(s, sep)| >= 2
    ensures Split(s, sep)[1..] == Split(s[IndexOf(s, sep) + 1..], sep)
    decreases |s|
  {
    if s[0] != sep {
      SplitTail(s[1..], sep);
      assert s[1..][IndexOf(s[1..], sep) + 1..] == s[IndexOf(s, sep) + 1..];
    }
  }

  /** The second token is the text between the first and the second separator (or the end). */
  lemma SplitSecond(s: string, sep: char)
    requires sep in s
    ensures |Split(s, sep)| >= 2
    ensures Split(s, sep)[1] == TakeUntil(s[IndexOf(s, sep) + 1..], sep)
  {
    var r, after := Split(s, sep), s[IndexOf(s, sep) + 1..];
    SplitTail(s, sep);
    SplitHead(after, sep);
    assert r[1] == r[1..][0] == Split(after, sep)[0];
  }

  /** Prepending a character to the first token prepends it to the joined string. */
  lemma JoinPrepend(c: char, tokens: seq<string>, sep: char)
    requires |tokens| >= 1
    ensures Join([[c] + tokens[0]] + tokens[1..], sep) == [c] + Join(tokens, sep)
  {
    var t := [[c] + tokens[0]] + tokens[1..];
    assert t[1..] == tokens[1..];
  }

  /** Joining the tokens of a split with the same separator gives back the original string. */
  lemma {:induction false} JoinSplit(s: string, sep: char)
    ensures Join(Split(s, sep), sep) == s
    decreases |s|
  {
    if s != [] {
      var rest := Split(s[1..], sep);
      JoinSplit(s[1..], sep);
      if s[0] == sep {
        assert ([""] + rest)[1..] == rest;
        assert Join([""] + rest, sep) == "" + [sep] + Join(rest, sep);
      } else {
        JoinPrepend(s[0], rest, sep);
      }
      assert [s[0]] + s[1..] == s;
    }
  }

  /** Splitting a token, a separator and a rest cuts right after the token. */
  lemma {:induction false} SplitCons(t: string, sep: char, rest: string)
    requires sep !in t
    ensures Split(t + [sep] + rest, sep) == [t] + Split(rest, sep)
    decreases |t|
  {
    if t == [] {
      assert t + [sep] + rest == [sep] + rest;
    } else {
      SplitCons(t[1..], sep, rest);
      assert (t + [sep] + rest)[1..] == t[1..] + [sep] + rest;
      assert [t[0]] + t[1..] == t;
    }
  }

  /** Splitting a join of separator-free tokens gives back the tokens. */
  lemma {:induction false} SplitJoin(tokens: seq<string>, sep: char)
    requires |tokens| >= 1
    requires forall i :: 0 <= i < |tokens| ==> sep !in tokens[i]
    ensures Split(Join(tokens, sep), sep) == tokens
    decreases |tokens|
  {
    if |tokens| == 1 {
      SplitNoSep(tokens[0], sep);
    } else {
      SplitJoin(tokens[1..], sep);
      SplitCons(tokens[0], sep, Join(tokens[1..], sep));
      assert [tokens[0]] + tokens[1..] == tokens;
    }
  }
}
