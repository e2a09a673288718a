/** The few JavaScript string operations the client relies on: a regular
    expression anchored with `$` (no `m` flag), which is a suffix test, and
    `String.prototype.split` with a one-character separator. */
module JsStrings {

  /** `s.match(/suffix$/)` for a literal suffix: without the multiline flag
      `$` matches only at the very end of the input. */
  predicate EndsWith(s: string, suffix: string) {
    |suffix| <= |s| && s[|s| - |suffix|..] == suffix
  }

  /** `s` ends with `suffix` exactly when it is some text followed by it. */
  lemma EndsWithConcat(s: string, suffix: string)
    ensures EndsWith(s, suffix) <==> exists front :: s == front + suffix
  {
    if EndsWith(s, suffix) {
      assert s == s[..|s| - |suffix|] + suffix;
    }
    forall front | s == front + suffix
      ensures EndsWith(s, suffix)
    {
      assert s[|s| - |suffix|..] == suffix;
    }
  }

  /** `s.split(sep)`: the pieces between separators, in order. As in
      JavaScript the result is never empty, `"".split(sep)` is `[""]`, and a
      separator at either end yields an empty first or last piece. */
  function Split(s: string, sep: char): (pieces: seq<string>)
    ensures |pieces| >= 1
    decreases |s|
  {
    if s == [] then [""]
    else if s[0] == sep then [""] + Split(s[1..], sep)
    else
      var rest := Split(s[1..], sep);
      [[s[0]] + rest[0]] + rest[1..]
  }

  /** No piece of a split contains the separator. */
  lemma {:induction false} SplitSeparatorFree(s: string, sep: char)
    ensures forall k :: 0 <= k < |Split(s, sep)| ==> sep !in Split(s, sep)[k]
    decreases |s|
  {
    if s != [] {
      SplitSeparatorFree(s[1..], sep);
    }
  }

  /** `pieces.join(sep)`. */
  function Join(pieces: seq<string>, sep: char): string
    decreases |pieces|
  {
    if |pieces| == 0 then ""
    else if |pieces| == 1 then pieces[0]
    else pieces[0] + [sep] + Join(pieces[1..], sep)
  }

  /** Joining a piece in front of at least one other adds a separator. */
  lemma JoinCons(piece: string, rest: seq<string>, sep: char)
    requires |rest| >= 1
    ensures Join([piece] + rest, sep) == piece + [sep] + Join(rest, sep)
  {
    assert ([piece] + rest)[1..] == rest;
  }

  /** Joining after putting c in front of the first piece puts c in front. */
  lemma JoinPrepend(c: char, rest: seq<string>, sep: char)
    requires |rest| >= 1
    ensures Join([[c] + rest[0]] + rest[1..], sep) == [c] + Join(rest, sep)
  {
    if |rest| > 1 {
      JoinCons([c] + rest[0], rest[1..], sep);
      JoinCons(rest[0], rest[1..], sep);
      assert [rest[0]] + rest[1..] == rest;
    }
  }

  /** Joining the pieces of a split gives back the split string. */
  lemma {:induction false} JoinSplit(s: string, sep: char)
    ensures Join(Split(s, sep), sep) == s
    decreases |s|
  {
    if s != [] {
      var rest := Split(s[1..], sep);
      JoinSplit(s[1..], sep);
      if s[0] == sep {
        JoinCons("", rest, sep);
      } else {
        JoinPrepend(s[0], rest, sep);
      }
      assert s == [s[0]] + s[1..];
    }
  }

  /** A string without the separator splits into itself alone. */
  lemma {:induction false} SplitWithoutSeparator(s: string, sep: char)
    requires sep !in s
    ensures Split(s, sep) == [s]
    decreases |s|
  {
    if s != [] {
      assert s[0] == s[..1][0];
      SplitWithoutSeparator(s[1..], sep);
      assert [s[0]] + s[1..] == s;
    }
  }

  /** A separator after a separator-free head starts a new piece. */
  lemma {:induction false} SplitAtFirstSeparator(head: string, sep: char, tail: string)
    requires sep !in head
    ensures Split(head + [sep] + tail, sep) == [head] + Split(tail, sep)
    decreases |head|
  {
    var s := head + [sep] + tail;
    if head == [] {
      assert s[0] == sep && s[1..] == tail;
    } else {
      assert s[0] == head[0] && head[0] != sep;
      assert s[1..] == head[1..] + [sep] + tail;
      SplitAtFirstSeparator(head[1..], sep, tail);
      assert [head[0]] + head[1..] == head;
    }
  }

  /** Splitting is the inverse of joining separator-free pieces: together
      with JoinSplit this says Split(s) is the unique separator-free
      decomposition of s. */
  lemma {:induction false} SplitJoin(pieces: seq<string>, sep: char)
    requires |pieces| >= 1
    requires forall k :: 0 <= k < |pieces| ==> sep !in pieces[k]
    ensures Split(Join(pieces, sep), sep) == pieces
    decreases |pieces|
  {
    if |pieces| == 1 {
      SplitWithoutSeparator(pieces[0], sep);
    } else {
      assert sep !in pieces[0];
      SplitAtFirstSeparator(pieces[0], sep, Join(pieces[1..], sep));
      assert forall k :: 0 <= k < |pieces[1..]| ==> pieces[1..][k] == pieces[k + 1];
      SplitJoin(pieces[1..], sep);
      assert [pieces[0]] + pieces[1..] == pieces;
    }
  }

  /** The pieces with t appended to the last one. */
  function ExtendLast(pieces: seq<string>, t: string): seq<string>
    requires |pieces| >= 1
  {
    pieces[..|pieces| - 1] + [pieces[|pieces| - 1] + t]
  }

  /** Joining after extending the last piece appends to the joined text. */
  lemma {:induction false} JoinExtendLast(pieces: seq<string>, t: string, sep: char)
    requires |pieces| >= 1
    ensures Join(ExtendLast(pieces, t), sep) == Join(pieces, sep) + t
    decreases |pieces|
  {
    if |pieces| > 1 {
      var tail := pieces[1..];
      JoinExtendLast(tail, t, sep);
      assert ExtendLast(pieces, t) == [pieces[0]] + ExtendLast(tail, t);
      assert ([pieces[0]] + ExtendLast(tail, t))[1..] == ExtendLast(tail, t);
    }
  }

  /** Appending separator-free text only extends the last piece. */
  lemma SplitAppend(s: string, t: string, sep: char)
    requires sep !in t
    ensures Split(s + t, sep) == ExtendLast(Split(s, sep), t)
  {
    var pieces := Split(s, sep);
    var extended := ExtendLast(pieces, t);
    JoinSplit(s, sep);
    SplitSeparatorFree(s, sep);
    JoinExtendLast(pieces, t, sep);
    assert forall k :: 0 <= k < |extended| ==> sep !in extended[k] by {
      forall k | 0 <= k < |extended| ensures sep !in extended[k] {
        if k < |pieces| - 1 {
          assert extended[k] == pieces[k];
        } else {
          assert extended[k] == pieces[k] + t;
        }
      }
    }
    SplitJoin(extended, sep);
  }

  /** When s ends with separator-free text, its last piece does too. */
  lemma SplitLastEndsWith(s: string, suffix: string, sep: char)
    requires EndsWith(s, suffix) && sep !in suffix
    ensures EndsWith(Split(s, sep)[|Split(s, sep)| - 1], suffix)
  {
    var head := s[..|s| - |suffix|];
    assert head + suffix == s;
    SplitAppend(head, suffix, sep);
    var last := Split(head, sep)[|Split(head, sep)| - 1] + suffix;
    assert Split(s, sep)[|Split(s, sep)| - 1] == last;
    assert last[|last| - |suffix|..] == suffix;
  }
}
