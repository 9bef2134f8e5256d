/** The string operations the extension relies on: JavaScript's
    `String.prototype.indexOf` and `String.prototype.split`, and the way the
    shell cuts the switch command's argument string into words. */
module Text {

  /** `pat` occurs in `s` starting at position `i`. */
  predicate OccursAt(s: string, pat: string, i: int) {
    0 <= i && i + |pat| <= |s| && s[i..i + |pat|] == pat
  }

  /** JavaScript `s.indexOf(pat)`: the first position where `pat` occurs in
      `s`, or -1 when it occurs nowhere. Positions count Dafny characters,
      where JavaScript counts UTF-16 code units; they differ after a
      character outside the Basic Multilingual Plane, but the extension only
      compares the result with -1, on which the two agree. */
  function IndexOf(s: string, pat: string): (r: int)
    ensures r == -1 || OccursAt(s, pat, r)
    ensures r == -1 <==> forall i :: !OccursAt(s, pat, i)
    ensures forall i :: 0 <= i < r ==> !OccursAt(s, pat, i)
    decreases |s|
  {
    if |pat| <= |s| && s[..|pat|] == pat then 0
    else if s == [] then -1
    else
      var r := IndexOf(s[1..], pat);
      assert !OccursAt(s, pat, 0);
      assert forall i :: OccursAt(s, pat, i) <==> i >= 1 && OccursAt(s[1..], pat, i - 1) by {
        forall i ensures OccursAt(s, pat, i) <==> i >= 1 && OccursAt(s[1..], pat, i - 1) {
          if 1 <= i && i + |pat| <= |s| {
            assert s[1..][i - 1..i - 1 + |pat|] == s[i..i + |pat|];
          }
        }
      }
      if r == -1 then -1 else r + 1
  }

  /** JavaScript `s.split([sep])`: the pieces of `s` between the occurrences
      of `sep`, always at least one (`"".split("\n")` is `[""]`). */
  function Split(s: string, sep: char): (parts: seq<string>)
    ensures |parts| >= 1
    ensures forall i :: 0 <= i < |parts| ==> sep !in parts[i]
    decreases |s|
  {
    if s == [] then [""]
    else
      var rest := Split(s[1..], sep);
      if s[0] == sep then [""] + rest
      else [[s[0]] + rest[0]] + rest[1..]
  }

  /** JavaScript `parts.join([sep])`, the inverse of `Split`. */
  function Join(parts: seq<string>, sep: char): string
    decreases |parts|
  {
    if parts == [] then ""
    else if |parts| == 1 then parts[0]
    else parts[0] + [sep] + Join(parts[1..], sep)
  }

  /** Joining the pieces of a split gives back the text. */
  lemma {:induction false} JoinSplit(s: string, sep: char)
    ensures Join(Split(s, sep), sep) == s
    decreases |s|
  {
    if s != [] {
      var rest := Split(s[1..], sep);
      JoinSplit(s[1..], sep);
      if s[0] == sep {
        assert Split(s, sep) == [""] + rest;
        assert Join([""] + rest, sep) == "" + [sep] + Join(rest, sep);
      } else if |rest| == 1 {
        assert Split(s, sep) == [[s[0]] + rest[0]];
      } else {
        var parts := [[s[0]] + rest[0]] + rest[1..];
        assert parts[1..] == rest[1..];
        assert Join(rest, sep) == rest[0] + [sep] + Join(rest[1..], sep);
        assert Join(parts, sep) == [s[0]] + rest[0] + [sep] + Join(rest[1..], sep);
        assert s == [s[0]] + s[1..];
      }
    }
  }

  /** Splitting a text that starts with a separator-free word. */
  lemma {:induction false} SplitWord(w: string, t: string, sep: char)
    requires sep !in w
    ensures Split(w + t, sep) == [w + Split(t, sep)[0]] + Split(t, sep)[1..]
    decreases |w|
  {
    if w != [] {
      SplitWord(w[1..], t, sep);
      assert (w + t)[1..] == w[1..] + t;
      assert (w + t)[0] == w[0];
      assert [w[0]] + (w[1..] + Split(t, sep)[0]) == w + Split(t, sep)[0];
    } else {
      var p := Split(t, sep);
      assert w + t == t;
      assert w + p[0] == p[0];
      assert p == [p[0]] + p[1..];
    }
  }

  /** Splitting the join of separator-free pieces gives back the pieces. */
  lemma {:induction false} SplitJoin(parts: seq<string>, sep: char)
    requires |parts| >= 1
    requires forall i :: 0 <= i < |parts| ==> sep !in parts[i]
    ensures Split(Join(parts, sep), sep) == parts
    decreases |parts|
  {
    if |parts| == 1 {
      SplitWord(parts[0], "", sep);
      assert parts[0] + "" == parts[0];
    } else {
      var tail := Join(parts[1..], sep);
      SplitJoin(parts[1..], sep);
      SplitWord(parts[0], [sep] + tail, sep);
      assert parts[0] + [sep] + tail == parts[0] + ([sep] + tail);
      assert ([sep] + tail)[1..] == tail;
      assert ([sep] + tail)[0] == sep;
      assert Split([sep] + tail, sep) == [""] + parts[1..];
      assert ([""] + parts[1..])[1..] == parts[1..];
      assert parts[0] + "" == parts[0];
      assert Join(parts, sep) == parts[0] + [sep] + tail;
      assert parts == [parts[0]] + parts[1..];
    }
  }

  /** The switch command's argument string: every token followed by one
      space, as the extension appends `${token} ` for each. */
  function Spaced(tokens: seq<string>): (s: string)
    ensures |s| >= |tokens|
    decreases |tokens|
  {
    if tokens == [] then "" else tokens[0] + " " + Spaced(tokens[1..])
  }

  /** The argument string is the tokens joined by spaces with a trailing
      empty piece. */
  lemma {:induction false} SpacedIsJoin(tokens: seq<string>)
    ensures Spaced(tokens) == Join(tokens + [""], ' ')
    decreases |tokens|
  {
    if tokens != [] {
      SpacedIsJoin(tokens[1..]);
      assert (tokens + [""])[1..] == tokens[1..] + [""];
      assert (tokens + [""])[0] == tokens[0];
    }
  }

  /** The non-empty pieces, in order. */
  function NonEmpty(parts: seq<string>): (r: seq<string>)
    ensures forall i :: 0 <= i < |r| ==> r[i] != ""
    decreases |parts|
  {
    if parts == [] then []
    else if parts[0] == "" then NonEmpty(parts[1..])
    else [parts[0]] + NonEmpty(parts[1..])
  }

  /** Keeping the non-empty pieces of a longer sequence. */
  lemma {:induction false} NonEmptyAppend(parts: seq<string>, x: string)
    ensures NonEmpty(parts + [x]) == NonEmpty(parts) + (if x != "" then [x] else [])
    decreases |parts|
  {
    if parts == [] {
      assert NonEmpty([x]) == (if x != "" then [x] else []) + NonEmpty([]);
    } else {
      NonEmptyAppend(parts[1..], x);
      assert (parts + [x])[1..] == parts[1..] + [x];
      assert (parts + [x])[0] == parts[0];
    }
  }

  /** The words the shell sees in `s` when spaces separate them (tabs,
      newlines and every other shell metacharacter are taken literally). */
  function Words(s: string): seq<string> {
    NonEmpty(Split(s, ' '))
  }

  lemma {:induction false} NonEmptyKeeps(parts: seq<string>)
    requires forall i :: 0 <= i < |parts| ==> parts[i] != ""
    ensures NonEmpty(parts + [""]) == parts
    decreases |parts|
  {
    if parts == [] {
      assert NonEmpty([""]) == NonEmpty([]);
    } else {
      NonEmptyKeeps(parts[1..]);
      assert (parts + [""])[1..] == parts[1..] + [""];
      assert (parts + [""])[0] == parts[0];
      assert parts == [parts[0]] + parts[1..];
    }
  }

  /** Read back by the shell, the argument string gives exactly the tokens,
      provided each is a non-empty word without spaces. */
  lemma WordsOfSpaced(tokens: seq<string>)
    requires forall i :: 0 <= i < |tokens| ==> tokens[i] != "" && ' ' !in tokens[i]
    ensures Words(Spaced(tokens)) == tokens
  {
    var parts := tokens + [""];
    assert forall i :: 0 <= i < |parts| ==> ' ' !in parts[i] by {
      forall i | 0 <= i < |parts| ensures ' ' !in parts[i] {
        if i < |tokens| { assert parts[i] == tokens[i]; }
      }
    }
    SpacedIsJoin(tokens);
    SplitJoin(parts, ' ');
    NonEmptyKeeps(tokens);
  }
}
