/** Go's `strings.Split` with a one-byte separator and `strings.Repeat`,
    which the masker calls, and `Join`, the inverse of `Split`, used to state
    the round trip (`JoinSplit`, `SplitJoin`). A Go string is a sequence of
    bytes; here each byte is one `char`. */
module GoStrings {

  /** `strings.Repeat(s, n)`: `s` written `n` times in a row. Go panics on a
      negative count; here the count is a `nat`. */
  function Repeat(s: string, n: nat): (r: string)
    ensures |r| == n * |s|
    decreases n
  {
    if n == 0 then "" else s + Repeat(s, n - 1)
  }

  /** Repeating a one-byte string gives that byte at every position. */
  lemma {:induction false} RepeatGlyph(c: char, n: nat)
    ensures |Repeat([c], n)| == n
    ensures forall i :: 0 <= i < n ==> Repeat([c], n)[i] == c
  {
    if n > 0 {
      RepeatGlyph(c, n - 1);
      assert Repeat([c], n) == [c] + Repeat([c], n - 1);
    }
  }

  /** `Repeat(s, n)` is made of `n` copies of `s`: the `j`-th block of `|s|`
      bytes is `s` itself, whatever the length of `s`. */
  lemma {:induction false} RepeatCopies(s: string, n: nat)
    ensures forall j :: 0 <= j < n ==>
              j * |s| + |s| <= n * |s| && Repeat(s, n)[j * |s|..j * |s| + |s|] == s
  {
    if n > 0 {
      RepeatCopies(s, n - 1);
      var r := Repeat(s, n);
      var tail := Repeat(s, n - 1);
      assert r == s + tail;
      forall j | 0 <= j < n
        ensures j * |s| + |s| <= n * |s| && r[j * |s|..j * |s| + |s|] == s
      {
        if j == 0 {
          assert r[..|s|] == s;
        } else {
          var k := j - 1;
          assert j * |s| == |s| + k * |s|;
          assert n * |s| == |s| + (n - 1) * |s|;
          assert r[|s| + k * |s|..|s| + k * |s| + |s|] == tail[k * |s|..k * |s| + |s|];
        }
      }
    }
  }

  /** `strings.Split(s, sep)` for a one-byte separator: the pieces of `s`
      between consecutive occurrences of `sep`. The empty string splits into
      one empty piece. */
  function Split(s: string, sep: char): (parts: seq<string>)
    ensures |parts| >= 1
    ensures forall k :: 0 <= k < |parts| ==> sep !in parts[k]
    decreases |s|
  {
    if |s| == 0 then [""]
    else
      var rest := Split(s[1..], sep);
      if s[0] == sep then [""] + rest
      else [[s[0]] + rest[0]] + rest[1..]
  }

  /** `strings.Join(parts, sep)`. */
  function Join(parts: seq<string>, sep: char): string
    decreases |parts|
  {
    if |parts| == 0 then ""
    else if |parts| == 1 then parts[0]
    else parts[0] + [sep] + Join(parts[1..], sep)
  }

  /** Joining after an empty first piece puts a separator in front. */
  lemma JoinEmptyFirst(parts: seq<string>, sep: char)
    requires |parts| >= 1
    ensures Join([""] + parts, sep) == [sep] + Join(parts, sep)
  {
    assert ([""] + parts)[1..] == parts;
  }

  /** Joining after a byte is put in front of the first piece puts that byte
      in front of the join. */
  lemma JoinExtendFirst(c: char, parts: seq<string>, sep: char)
    requires |parts| >= 1
    ensures Join([[c] + parts[0]] + parts[1..], sep) == [c] + Join(parts, sep)
  {
    var ext := [[c] + parts[0]] + parts[1..];
    if |parts| > 1 {
      assert ext[1..] == parts[1..];
      assert Join(ext, sep) == ([c] + parts[0]) + [sep] + Join(parts[1..], sep);
    }
  }

  /** Joining the pieces of a split gives back the string. */
  lemma {:induction false} JoinSplit(s: string, sep: char)
    ensures Join(Split(s, sep), sep) == s
    decreases |s|
  {
    if |s| > 0 {
      var rest := Split(s[1..], sep);
      JoinSplit(s[1..], sep);
      if s[0] == sep {
        JoinEmptyFirst(rest, sep);
      } else {
        JoinExtendFirst(s[0], rest, sep);
      }
      assert s == [s[0]] + s[1..];
    }
  }

  /** Splitting at a first occurrence of the separator: the first piece is
      everything before it, the rest is the split of everything after it. */
  lemma {:induction false} SplitAtFirst(s: string, sep: char, i: nat)
    requires i < |s| && s[i] == sep && sep !in s[..i]
    ensures Split(s, sep) == [s[..i]] + Split(s[i + 1..], sep)
    decreases i
  {
    if i > 0 {
      var before := s[1..][..i - 1];
      assert before == s[1..i];
      assert sep !in before by {
        forall k | 0 <= k < i - 1 ensures before[k] != sep {
          assert before[k] == s[..i][k + 1];
        }
      }
      SplitAtFirst(s[1..], sep, i - 1);
      assert s[1..][i - 1 + 1..] == s[i + 1..];
      assert s[0] == s[..i][0];
      assert [s[0]] + s[1..i] == s[..i];
    }
  }

  /** A string without the separator is a single piece. */
  lemma {:induction false} SplitNoSeparator(s: string, sep: char)
    requires sep !in s
    ensures Split(s, sep) == [s]
    decreases |s|
  {
    if |s| > 0 {
      assert sep !in s[1..] by {
        forall k | 0 <= k < |s| - 1 ensures s[1..][k] != sep {
          assert s[1..][k] == s[k + 1];
        }
      }
      SplitNoSeparator(s[1..], sep);
      assert [s[0]] + s[1..] == s;
    }
  }

  /** Splitting a join of separator-free pieces gives back the pieces. */
  lemma {:induction false} SplitJoin(parts: seq<string>, sep: char)
    requires |parts| >= 1
    requires forall k :: 0 <= k < |parts| ==> sep !in parts[k]
    ensures Split(Join(parts, sep), sep) == parts
    decreases |parts|
  {
    if |parts| == 1 {
      SplitNoSeparator(parts[0], sep);
    } else {
      var tail := Join(parts[1..], sep);
      var s := parts[0] + [sep] + tail;
      var i := |parts[0]|;
      assert s[..i] == parts[0];
      assert s[i + 1..] == tail;
      SplitAtFirst(s, sep, i);
      SplitJoin(parts[1..], sep);
      assert [parts[0]] + parts[1..] == parts;
    }
  }

  /** Position of the first occurrence of `c` in `s`. */
  function IndexOf(s: string, c: char): (i: nat)
    requires c in s
    ensures i < |s| && s[i] == c && c !in s[..i]
    decreases |s|
  {
    if s[0] == c then 0
    else
      var j := IndexOf(s[1..], c);
      assert s[..j + 1] == [s[0]] + s[1..][..j];
      j + 1
  }
}
