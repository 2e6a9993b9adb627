/**
 * The .NET string operations the OPI command handlers are built from, over
 * strings as sequences of characters (unpaired UTF-16 surrogates are not
 * represented; no keyword, separator or white-space character is one):
 * ordinal `String.Contains`, `String.Trim()`, `String.Split(char)`, and the
 * keyword-table scan `table.FirstOrDefault(s => message.Contains(s))` that
 * all three dispatchers share.
 */
module OpiText {
  import opened Options

  // ---------------------------------------------------------------------------
  // Substring search (ordinal String.Contains)
  // ---------------------------------------------------------------------------

  /** `needle` occurs in `hay` starting at index `i`. */
  predicate OccursAt(hay: string, needle: string, i: int) {
    0 <= i && i + |needle| <= |hay| && hay[i..i + |needle|] == needle
  }

  /** `hay.Contains(needle)`: a left-to-right scan over the start positions. */
  predicate Contains(hay: string, needle: string)
    decreases |hay|
  {
    |needle| <= |hay| && (hay[..|needle|] == needle || Contains(hay[1..], needle))
  }

  /** A needle the scan finds occurs at some position. */
  lemma {:induction false} ContainsOccurs(hay: string, needle: string) returns (i: nat)
    requires Contains(hay, needle)
    ensures OccursAt(hay, needle, i)
    decreases |hay|
  {
    if hay[..|needle|] == needle {
      i := 0;
    } else {
      var j := ContainsOccurs(hay[1..], needle);
      assert hay[j + 1..j + 1 + |needle|] == hay[1..][j..j + |needle|];
      i := j + 1;
    }
  }

  /** A needle that occurs at some position is found by the scan. */
  lemma {:induction false} OccursContains(hay: string, needle: string, i: int)
    requires OccursAt(hay, needle, i)
    ensures Contains(hay, needle)
    decreases i
  {
    if i > 0 && hay[..|needle|] != needle {
      assert hay[1..][i - 1..i - 1 + |needle|] == hay[i..i + |needle|];
      OccursContains(hay[1..], needle, i - 1);
    }
  }

  /** The scan finds the needle exactly when it occurs at some position. */
  lemma ContainsIff(hay: string, needle: string)
    ensures Contains(hay, needle) <==> exists i :: OccursAt(hay, needle, i)
  {
    if Contains(hay, needle) {
      var i := ContainsOccurs(hay, needle);
    }
    if exists i :: OccursAt(hay, needle, i) {
      var i :| OccursAt(hay, needle, i);
      OccursContains(hay, needle, i);
    }
  }

  /** A needle longer than the text never occurs in it. */
  lemma LongerNeverContained(hay: string, needle: string)
    requires |hay| < |needle|
    ensures !Contains(hay, needle)
  {
  }

  /** Every string contains itself. */
  lemma ContainsSelf(s: string)
    ensures Contains(s, s)
  {
    assert s[..|s|] == s;
  }

  // ---------------------------------------------------------------------------
  // First keyword of a table contained in a message
  // ---------------------------------------------------------------------------

  /**
   * `keywords.FirstOrDefault(s => message.Contains(s))`, as the index of the
   * selected entry: the first entry, in table order, that occurs anywhere in
   * the message; None when no entry occurs.
   */
  function FirstMatch(keywords: seq<string>, message: string): (r: Option<nat>)
    ensures r.Some? ==> r.value < |keywords|
    decreases |keywords|
  {
    if keywords == [] then None
    else if Contains(message, keywords[0]) then Some(0)
    else match FirstMatch(keywords[1..], message)
      case None => None
      case Some(i) => Some(i + 1)
  }

  /**
   * The selected entry occurs in the message and no earlier entry does; there
   * is no selection exactly when no entry occurs.
   */
  lemma {:induction false} FirstMatchSpec(keywords: seq<string>, message: string)
    ensures var r := FirstMatch(keywords, message);
            && (r.Some? ==> Contains(message, keywords[r.value]))
            && (r.Some? ==> forall j :: 0 <= j < r.value ==> !Contains(message, keywords[j]))
            && (r.None? <==> forall j :: 0 <= j < |keywords| ==> !Contains(message, keywords[j]))
    decreases |keywords|
  {
    if keywords != [] && !Contains(message, keywords[0]) {
      var tail := keywords[1..];
      FirstMatchSpec(tail, message);
      assert forall j :: 1 <= j < |keywords| ==> keywords[j] == tail[j - 1];
    }
  }

  /** The selection is determined: entry `i` is chosen exactly when it is the first one contained. */
  lemma FirstMatchIs(keywords: seq<string>, message: string, i: nat)
    requires i < |keywords|
    ensures FirstMatch(keywords, message) == Some(i) <==>
              Contains(message, keywords[i]) && forall j :: 0 <= j < i ==> !Contains(message, keywords[j])
  {
    FirstMatchSpec(keywords, message);
    var r := FirstMatch(keywords, message);
    if Contains(message, keywords[i]) && forall j :: 0 <= j < i ==> !Contains(message, keywords[j]) {
      assert r.Some?;
    }
  }

  // ---------------------------------------------------------------------------
  // String.Trim()
  // ---------------------------------------------------------------------------

  /** `Char.IsWhiteSpace`: the Unicode separators and the control characters U+0009..U+000D, U+0085. */
  predicate IsWhiteSpace(c: char) {
    var u := c as int;
    u == 0x20 || 0x09 <= u <= 0x0D || u == 0x85 || u == 0xA0 || u == 0x1680
    || 0x2000 <= u <= 0x200A || u == 0x2028 || u == 0x2029 || u == 0x202F
    || u == 0x205F || u == 0x3000
  }

  /** Every character of `s` is white space. */
  predicate AllWhiteSpace(s: string) {
    forall i :: 0 <= i < |s| ==> IsWhiteSpace(s[i])
  }

  /** `String.TrimStart()`: drops the leading white space, and nothing else. */
  function TrimStart(s: string): (r: string)
    ensures |r| <= |s| && r == s[|s| - |r|..]
    ensures AllWhiteSpace(s[..|s| - |r|])
    ensures r != [] ==> !IsWhiteSpace(r[0])
    decreases |s|
  {
    if s != [] && IsWhiteSpace(s[0]) then
      var r := TrimStart(s[1..]);
      assert s[..|s| - |r|] == [s[0]] + s[1..][..|s| - 1 - |r|];
      r
    else s
  }

  /** `String.TrimEnd()`: drops the trailing white space, and nothing else. */
  function TrimEnd(s: string): (r: string)
    ensures |r| <= |s| && r == s[..|r|]
    ensures AllWhiteSpace(s[|r|..])
    ensures r != [] ==> !IsWhiteSpace(r[|r| - 1])
    decreases |s|
  {
    if s != [] && IsWhiteSpace(s[|s| - 1]) then
      var r := TrimEnd(s[..|s| - 1]);
      assert s[|r|..] == s[..|s| - 1][|r|..] + [s[|s| - 1]];
      r
    else s
  }

  /** The number of leading white-space characters `String.Trim()` removes. */
  function LeadingWhiteSpace(s: string): (n: nat)
    ensures n <= |s|
  {
    |s| - |TrimStart(s)|
  }

  /** Slicing the suffix of `s` that starts at `n` is slicing `s` from `n` on. */
  lemma SliceOfSuffix(s: string, n: nat, m: nat)
    requires n + m <= |s|
    ensures s[n..][..m] == s[n..n + m] && s[n..][m..] == s[n + m..]
  {
  }

  /**
   * `String.Trim()`: the message without leading and trailing white space;
   * what is removed at either end is white space, and the result neither
   * starts nor ends with white space.
   */
  function Trim(s: string): (r: string)
    ensures LeadingWhiteSpace(s) + |r| <= |s|
    ensures r == s[LeadingWhiteSpace(s)..LeadingWhiteSpace(s) + |r|]
    ensures AllWhiteSpace(s[..LeadingWhiteSpace(s)])
    ensures AllWhiteSpace(s[LeadingWhiteSpace(s) + |r|..])
    ensures r != [] ==> !IsWhiteSpace(r[0]) && !IsWhiteSpace(r[|r| - 1])
  {
    var t := TrimStart(s);
    var r := TrimEnd(t);
    SliceOfSuffix(s, LeadingWhiteSpace(s), |r|);
    r
  }

  // ---------------------------------------------------------------------------
  // String.Split(char) and its inverse String.Join
  // ---------------------------------------------------------------------------

  /** The number of occurrences of `c` in `s`. */
  function Count(s: string, c: char): nat {
    multiset(s)[c]
  }

  /** No piece holds the separator. */
  predicate SeparatorFree(parts: seq<string>, sep: char) {
    forall k :: 0 <= k < |parts| ==> sep !in parts[k]
  }

  /**
   * `s.Split(sep)`: the pieces between separators, empty pieces included, so
   * that a string with k separators gives k + 1 pieces ("" gives [""]).
   */
  function Split(s: string, sep: char): (r: seq<string>)
    ensures |r| >= 1
    ensures SeparatorFree(r, sep)
    decreases |s|
  {
    if s == [] then [[]]
    else
      var rest := Split(s[1..], sep);
      assert s == [s[0]] + s[1..];
      if s[0] == sep then [[]] + rest
      else [[s[0]] + rest[0]] + rest[1..]
  }

  /** A string with k separators splits into k + 1 pieces. */
  lemma {:induction false} SplitCount(s: string, sep: char)
    ensures |Split(s, sep)| == Count(s, sep) + 1
    decreases |s|
  {
    if s != [] {
      SplitCount(s[1..], sep);
      assert s == [s[0]] + s[1..];
      assert multiset(s) == multiset{s[0]} + multiset(s[1..]);
    }
  }

  /** `String.Join(sep, parts)`. */
  function Join(parts: seq<string>, sep: char): string
    requires parts != []
    decreases |parts|
  {
    if |parts| == 1 then parts[0] else parts[0] + [sep] + Join(parts[1..], sep)
  }

  /** Joining the pieces of a split gives back the string. */
  lemma {:induction false} JoinSplit(s: string, sep: char)
    ensures Join(Split(s, sep), sep) == s
    decreases |s|
  {
    if s != [] {
      var rest := Split(s[1..], sep);
      JoinSplit(s[1..], sep);
      if s[0] != sep {
        var r := Split(s, sep);
        assert r == [[s[0]] + rest[0]] + rest[1..];
        if |rest| == 1 {
          assert Join(r, sep) == [s[0]] + rest[0];
        } else {
          assert r[1..] == rest[1..];
          assert Join(rest, sep) == rest[0] + [sep] + Join(rest[1..], sep);
        }
      }
    }
  }

  /** Splitting a separator-free piece followed by more text extends the first piece. */
  lemma {:induction false} SplitPrefix(p: string, rest: string, sep: char)
    requires sep !in p
    ensures Split(p + rest, sep) == [p + Split(rest, sep)[0]] + Split(rest, sep)[1..]
    decreases |p|
  {
    var x := Split(rest, sep);
    if p == [] {
      assert p + rest == rest;
      assert p + x[0] == x[0];
      assert x == [x[0]] + x[1..];
    } else {
      SplitPrefix(p[1..], rest, sep);
      var s := p + rest;
      assert s[0] == p[0] && s[1..] == p[1..] + rest;
      assert p[0] != sep by { assert p[0] in p; }
      assert Split(s, sep) == [[p[0]] + Split(s[1..], sep)[0]] + Split(s[1..], sep)[1..];
      assert [p[0]] + (p[1..] + x[0]) == p + x[0];
    }
  }

  /** Splitting pieces that hold no separator gives back the pieces. */
  lemma {:induction false} SplitJoin(parts: seq<string>, sep: char)
    requires parts != []
    requires SeparatorFree(parts, sep)
    ensures Split(Join(parts, sep), sep) == parts
    decreases |parts|
  {
    var p := parts[0];
    if |parts| == 1 {
      SplitPrefix(p, [], sep);
      assert p + [] == p;
    } else {
      var tail := Join(parts[1..], sep);
      SplitJoin(parts[1..], sep);
      assert ([sep] + tail)[1..] == tail;
      assert Split([sep] + tail, sep) == [[]] + parts[1..];
      SplitPrefix(p, [sep] + tail, sep);
      assert p + [sep] + tail == p + ([sep] + tail);
      assert p + [] == p;
    }
  }
}
