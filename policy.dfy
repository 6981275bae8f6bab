/** The string-masking policy of masker/masker.go: the two masking levels,
    `sanitize`, and how a `sensitive` struct tag selects a level. */
module Policy {
  import opened GoStrings

  /** The levels are the Go constants `FullMask = iota` and `PartialMask`. */
  const FULL_MASK: int := 0
  const PARTIAL_MASK: int := 1

  /** The glyph a new masker starts with. */
  const DEFAULT_MASK: string := "*"

  /** Number of leading bytes partial masking leaves visible: a fifth of the
      length, truncated, plus one. */
  function Visible(length: nat): nat
  {
    20 * length / 100 + 1
  }

  /** For every non-empty string the visible prefix fits inside it, and it
      covers the whole string only when the string has a single byte. */
  lemma VisibleBounds(length: nat)
    requires length >= 1
    ensures 1 <= Visible(length) <= length
    ensures Visible(length) == length <==> length == 1
  {
  }

  /** `sanitize(v, mask, level)`: the empty string is returned as it is; the
      full level replaces every byte by the glyph; any other level keeps the
      visible prefix and replaces each remaining byte by the glyph. */
  function Sanitize(v: string, mask: string, level: int): (r: string)
    ensures |v| == 0 ==> r == v
    ensures |v| > 0 && level == FULL_MASK ==> r == Repeat(mask, |v|) && |r| == |v| * |mask|
    ensures |v| > 0 && level != FULL_MASK ==>
              Visible(|v|) <= |v| && Visible(|v|) <= |r| &&
              r[..Visible(|v|)] == v[..Visible(|v|)] &&
              r[Visible(|v|)..] == Repeat(mask, |v| - Visible(|v|)) &&
              |r| == Visible(|v|) + (|v| - Visible(|v|)) * |mask|
  {
    if |v| == 0 then v
    else if level == FULL_MASK then Repeat(mask, |v|)
    else
      VisibleBounds(|v|);
      var k := Visible(|v|);
      var hidden := Repeat(mask, |v| - k);
      var r := v[..k] + hidden;
      assert r[..k] == v[..k] && r[k..] == hidden;
      r
  }

  /** Whatever the glyph's length, the masked part of the result is copies of
      the glyph, one per hidden byte: at the full level the `j`-th block of
      `|mask|` bytes is `mask` for every byte `j` of `v`; at any other level
      the same holds after the visible prefix, for every hidden byte. */
  lemma SanitizeCopies(v: string, mask: string, level: int)
    ensures level == FULL_MASK ==>
              forall j :: 0 <= j < |v| ==>
                j * |mask| + |mask| <= |Sanitize(v, mask, level)| &&
                Sanitize(v, mask, level)[j * |mask|..j * |mask| + |mask|] == mask
    ensures level != FULL_MASK ==>
              forall j :: 0 <= j < |v| - Visible(|v|) ==>
                Visible(|v|) + j * |mask| + |mask| <= |Sanitize(v, mask, level)| &&
                Sanitize(v, mask, level)[Visible(|v|) + j * |mask|..Visible(|v|) + j * |mask| + |mask|] == mask
  {
    var r := Sanitize(v, mask, level);
    if |v| > 0 {
      if level == FULL_MASK {
        assert r[0..] == Repeat(mask, |v|);
        BlocksAfter(r, 0, mask, |v|);
      } else {
        BlocksAfter(r, Visible(|v|), mask, |v| - Visible(|v|));
      }
    }
  }

  /** When `r` ends, from offset `k`, with `mask` repeated `n` times, the
      `j`-th block of `|mask|` bytes after `k` is `mask`. */
  lemma BlocksAfter(r: string, k: nat, mask: string, n: nat)
    requires k <= |r| && r[k..] == Repeat(mask, n)
    ensures forall j :: 0 <= j < n ==>
              k + j * |mask| + |mask| <= |r| && r[k + j * |mask|..k + j * |mask| + |mask|] == mask
  {
    var hidden := Repeat(mask, n);
    RepeatCopies(mask, n);
    forall j | 0 <= j < n
      ensures k + j * |mask| + |mask| <= |r| && r[k + j * |mask|..k + j * |mask| + |mask|] == mask
    {
      var a := j * |mask|;
      assert a + |mask| <= |hidden| && hidden[a..a + |mask|] == mask;
      assert r[k + a..k + a + |mask|] == hidden[a..a + |mask|];
    }
  }

  /** With a one-byte glyph `c`, masking keeps the length, and each byte of
      the result is either the byte of `v` at that position (inside the
      visible prefix, partial level only) or `c`. */
  lemma SanitizeGlyph(v: string, c: char, level: int)
    ensures |Sanitize(v, [c], level)| == |v|
    ensures forall i :: 0 <= i < |v| ==>
              Sanitize(v, [c], level)[i] == (if level != FULL_MASK && i < Visible(|v|) then v[i] else c)
  {
    if |v| > 0 {
      VisibleBounds(|v|);
      var k := if level == FULL_MASK then 0 else Visible(|v|);
      RepeatGlyph(c, |v| - k);
      var r := Sanitize(v, [c], level);
      assert r == v[..k] + Repeat([c], |v| - k);
      forall i | 0 <= i < |v|
        ensures r[i] == (if level != FULL_MASK && i < Visible(|v|) then v[i] else c)
      {
        if i >= k {
          assert r[i] == Repeat([c], |v| - k)[i - k];
        }
      }
    }
  }

  /** With a one-byte glyph, masking an already masked string again at the
      same level changes nothing. */
  lemma SanitizeIdempotent(v: string, c: char, level: int)
    ensures Sanitize(Sanitize(v, [c], level), [c], level) == Sanitize(v, [c], level)
  {
    var r := Sanitize(v, [c], level);
    SanitizeGlyph(v, c, level);
    SanitizeGlyph(r, c, level);
    var rr := Sanitize(r, [c], level);
    assert |rr| == |r|;
    forall i | 0 <= i < |r| ensures rr[i] == r[i] { }
  }

  /** Partial masking of a string of two or more bytes always hides its last
      byte; only a one-byte string is shown whole. */
  lemma PartialHidesLast(v: string, c: char)
    requires |v| >= 2
    ensures Sanitize(v, [c], PARTIAL_MASK)[|v| - 1] == c
  {
    SanitizeGlyph(v, c, PARTIAL_MASK);
  }

  /** `parseMaskLevel(args)`: full only when a second token exists and is
      exactly "full". */
  function ParseMaskLevel(args: seq<string>): int
  {
    if |args| > 1 && args[1] == "full" then FULL_MASK else PARTIAL_MASK
  }

  /** The level a `sensitive` tag selects: its comma-separated tokens, parsed. */
  function TagLevel(tag: string): int
  {
    ParseMaskLevel(Split(tag, ','))
  }

  /** Reference reading of a tag: some comma, with no comma before it, is
      followed by "full" and then by the end of the tag or another comma. */
  ghost predicate SecondTokenIsFull(tag: string)
  {
    exists i :: 0 <= i && i + 5 <= |tag| && ',' !in tag[..i] && tag[i..i + 5] == ",full" &&
                (i + 5 == |tag| || tag[i + 5] == ',')
  }

  /** A tag whose second token is "full" selects the full level. */
  lemma SecondFullIsFull(tag: string)
    requires SecondTokenIsFull(tag)
    ensures TagLevel(tag) == FULL_MASK
  {
    var i :| 0 <= i && i + 5 <= |tag| && ',' !in tag[..i] && tag[i..i + 5] == ",full" &&
             (i + 5 == |tag| || tag[i + 5] == ',');
    assert tag[i] == ',' by { assert tag[i..i + 5][0] == tag[i]; }
    SplitAtFirst(tag, ',', i);
    var t := tag[i + 1..];
    assert t[..4] == "full" by { assert t[..4] == tag[i..i + 5][1..]; }
    if i + 5 == |tag| {
      assert t == "full";
      SplitNoSeparator(t, ',');
    } else {
      assert t[4] == ',';
      SplitAtFirst(t, ',', 4);
    }
  }

  /** A string whose first comma-separated token is "full" starts with
      "full", followed by its end or by a comma. */
  lemma FirstTokenFull(t: string)
    requires Split(t, ',')[0] == "full"
    ensures |t| >= 4 && t[..4] == "full" && (|t| == 4 || t[4] == ',')
  {
    var j: nat;
    if ',' in t {
      j := IndexOf(t, ',');
      SplitAtFirst(t, ',', j);
    } else {
      SplitNoSeparator(t, ',');
      j := |t|;
    }
    assert t[..j] == "full";
  }

  /** A tag that selects the full level has "full" as its second token. */
  lemma FullIsSecondFull(tag: string)
    requires TagLevel(tag) == FULL_MASK
    ensures SecondTokenIsFull(tag)
  {
    if ',' !in tag {
      SplitNoSeparator(tag, ',');
      assert false;
    }
    var i := IndexOf(tag, ',');
    SplitAtFirst(tag, ',', i);
    var t := tag[i + 1..];
    FirstTokenFull(t);
    assert tag[i..i + 5] == [','] + t[..4];
    assert i + 5 == |tag| || tag[i + 5] == t[4];
  }

  /** A tag selects the full level exactly when its second token is "full",
      and the partial level otherwise. */
  lemma TagLevelFull(tag: string)
    ensures TagLevel(tag) == FULL_MASK || TagLevel(tag) == PARTIAL_MASK
    ensures TagLevel(tag) == FULL_MASK <==> SecondTokenIsFull(tag)
  {
    if SecondTokenIsFull(tag) {
      SecondFullIsFull(tag);
    }
    if TagLevel(tag) == FULL_MASK {
      FullIsSecondFull(tag);
    }
  }

  /** A tag asks for masking unless it is empty or exactly "false"; the whole
      tag is compared, not its first token. */
  predicate ShouldMask(tag: string)
  {
    tag != "" && tag != "false"
  }

  /** `applyMask(v, tag)` with the masker's glyph `mask`. */
  function ApplyMask(mask: string, v: string, tag: string): string
  {
    Sanitize(v, mask, TagLevel(tag))
  }

  /** The tags of the tests: an absent tag and "false" leave a field alone,
      any other tag, "false,full" included, masks it. */
  lemma ShouldMaskExamples()
    ensures !ShouldMask("") && !ShouldMask("false")
    ensures ShouldMask("true") && ShouldMask("true,full") && ShouldMask("false,full")
  {
  }

  /** Tags of one token are partial, "full" alone included. */
  lemma OneTokenExamples()
    ensures TagLevel("true") == PARTIAL_MASK
    ensures TagLevel("full") == PARTIAL_MASK
  {
    SplitNoSeparator("true", ',');
    SplitNoSeparator("full", ',');
  }

  /** "true,full" is full, and so is "false,full": the first token plays no
      part in the level. */
  lemma FullTagExamples()
    ensures TagLevel("true,full") == FULL_MASK
    ensures TagLevel("false,full") == FULL_MASK
  {
    FullAfter("true");
    assert "true" + ",full" == "true,full";
    FullAfter("false");
    assert "false" + ",full" == "false,full";
  }

  /** Any first token followed by ",full" selects the full level. */
  lemma FullAfter(first: string)
    requires ',' !in first
    ensures TagLevel(first + ",full") == FULL_MASK
  {
    var tag := first + ",full";
    assert tag[..|first|] == first;
    assert tag[|first|..|first| + 5] == ",full";
    SecondFullIsFull(tag);
  }

  /** Partial masking of the test strings. */
  lemma PartialExamples()
    ensures Sanitize("abc123", "*", PARTIAL_MASK) == "ab****"
    ensures Sanitize("abc123", "#", PARTIAL_MASK) == "ab####"
    ensures Sanitize("nuih", "*", PARTIAL_MASK) == "n***"
    ensures Sanitize("Something", "*", PARTIAL_MASK) == "So*******"
  {
    SanitizeGlyph("abc123", '*', PARTIAL_MASK);
    SanitizeGlyph("abc123", '#', PARTIAL_MASK);
    SanitizeGlyph("nuih", '*', PARTIAL_MASK);
    SanitizeGlyph("Something", '*', PARTIAL_MASK);
  }

  /** Partial masking of the card number and the list items of the tests,
      and full masking of the password. */
  lemma MoreExamples()
    ensures Sanitize("4312123453459909", "*", PARTIAL_MASK) == "4312************"
    ensures Sanitize("122345", "*", PARTIAL_MASK) == "12****"
    ensures Sanitize("child1", "*", PARTIAL_MASK) == "ch****"
    ensures Sanitize("abc1234", "*", FULL_MASK) == "*******"
  {
    SanitizeGlyph("4312123453459909", '*', PARTIAL_MASK);
    SanitizeGlyph("122345", '*', PARTIAL_MASK);
    SanitizeGlyph("child1", '*', PARTIAL_MASK);
    SanitizeGlyph("abc1234", '*', FULL_MASK);
  }
}
