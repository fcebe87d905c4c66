/**
  String helpers with the meaning of JavaScript's `String.prototype.split`
  for a one-character separator, its inverse `Array.prototype.join`, and
  `Array.prototype.filter(Boolean)` over strings.
 */
module Strings {

  datatype Option<+T> = None | Some(value: T)

  datatype Result<+T, +E> = Ok(value: T) | Err(error: E)

  /** Index of the first `d` in `s`, or `|s|` when there is none. */
  function IndexOf(s: string, d: char): (i: nat)
    ensures i <= |s|
    ensures i < |s| ==> s[i] == d
    ensures d !in s[..i]
  {
    if s == [] || s[0] == d then 0
    else
      var j := IndexOf(s[1..], d);
      assert s[..j + 1] == [s[0]] + s[1..][..j];
      1 + j
  }

  /** `s.split(d)`: the pieces of `s` between occurrences of `d`; never empty. */
  function Split(s: string, d: char): (r: seq<string>)
    ensures |r| >= 1
    decreases |s|
  {
    if s == [] then [""]
    else
      var rest := Split(s[1..], d);
      if s[0] == d then [""] + rest
      else [[s[0]] + rest[0]] + rest[1..]
  }

  /** `pieces.join(d)`. */
  function Join(pieces: seq<string>, d: char): string
    requires |pieces| >= 1
  {
    if |pieces| == 1 then pieces[0] else pieces[0] + [d] + Join(pieces[1..], d)
  }

  /** `pieces.filter(Boolean)`: drops the empty strings, keeps the order. */
  function NonEmpty(pieces: seq<string>): (r: seq<string>)
    ensures |r| <= |pieces|
    ensures forall k :: 0 <= k < |r| ==> r[k] != ""
    ensures forall x :: x in r <==> x in pieces && x != ""
  {
    if pieces == [] then []
    else (if pieces[0] == "" then [] else [pieces[0]]) + NonEmpty(pieces[1..])
  }

  lemma {:induction false} NonEmptyConcat(a: seq<string>, b: seq<string>)
    ensures NonEmpty(a + b) == NonEmpty(a) + NonEmpty(b)
    decreases |a|
  {
    if a != [] {
      assert (a + b)[1..] == a[1..] + b;
      NonEmptyConcat(a[1..], b);
    } else {
      assert a + b == b;
    }
  }

  lemma {:induction false} NonEmptyOfEmpties(pieces: seq<string>)
    requires forall k :: 0 <= k < |pieces| ==> pieces[k] == ""
    ensures NonEmpty(pieces) == []
    decreases |pieces|
  {
    if pieces != [] {
      NonEmptyOfEmpties(pieces[1..]);
    }
  }

  /** A string without the separator splits into itself alone. */
  lemma {:induction false} SplitWithout(s: string, d: char)
    requires d !in s
    ensures Split(s, d) == [s]
    decreases |s|
  {
    if s != [] {
      assert s[0] != d && d !in s[1..];
      SplitWithout(s[1..], d);
      assert [s[0]] + s[1..] == s;
    }
  }

  /** Splitting distributes over a separator occurrence. */
  lemma {:induction false} SplitConcat(p: string, q: string, d: char)
    ensures Split(p + [d] + q, d) == Split(p, d) + Split(q, d)
    decreases |p|
  {
    var s := p + [d] + q;
    if p == [] {
      assert s == [d] + q && s[1..] == q;
    } else {
      assert s[0] == p[0] && s[1..] == p[1..] + [d] + q;
      SplitConcat(p[1..], q, d);
    }
  }

  /** The pieces are the text before the first separator, then the pieces of the rest. */
  lemma SplitAtFirst(s: string, d: char)
    requires IndexOf(s, d) < |s|
    ensures Split(s, d) == [s[..IndexOf(s, d)]] + Split(s[IndexOf(s, d) + 1..], d)
  {
    var i := IndexOf(s, d);
    assert s == s[..i] + [d] + s[i + 1..];
    SplitConcat(s[..i], s[i + 1..], d);
    SplitWithout(s[..i], d);
  }

  /** `split(d)[0]` is the text before the first `d`, and there is a second
      piece exactly when `d` occurs. */
  lemma SplitHead(s: string, d: char)
    ensures Split(s, d)[0] == s[..IndexOf(s, d)]
    ensures |Split(s, d)| == 1 <==> d !in s
  {
    if IndexOf(s, d) < |s| {
      SplitAtFirst(s, d);
    } else {
      assert s[..IndexOf(s, d)] == s;
      SplitWithout(s, d);
    }
  }

  /** No piece contains the separator. */
  lemma {:induction false} SplitPiecesFree(s: string, d: char)
    ensures forall k :: 0 <= k < |Split(s, d)| ==> d !in Split(s, d)[k]
    decreases |s|
  {
    if IndexOf(s, d) < |s| {
      var i := IndexOf(s, d);
      SplitAtFirst(s, d);
      SplitPiecesFree(s[i + 1..], d);
    } else {
      SplitWithout(s, d);
    }
  }

  /** Joining the pieces with the separator gives back the input exactly. */
  lemma {:induction false} JoinSplit(s: string, d: char)
    ensures Join(Split(s, d), d) == s
    decreases |s|
  {
    if IndexOf(s, d) < |s| {
      var i := IndexOf(s, d);
      SplitAtFirst(s, d);
      var rest := Split(s[i + 1..], d);
      assert ([s[..i]] + rest)[1..] == rest;
      JoinSplit(s[i + 1..], d);
      assert s == s[..i] + [d] + s[i + 1..];
    } else {
      SplitWithout(s, d);
    }
  }

  /** Splitting a join of separator-free pieces gives back the pieces. */
  lemma {:induction false} SplitJoin(pieces: seq<string>, d: char)
    requires |pieces| >= 1
    requires forall k :: 0 <= k < |pieces| ==> d !in pieces[k]
    ensures Split(Join(pieces, d), d) == pieces
    decreases |pieces|
  {
    SplitWithout(pieces[0], d);
    if |pieces| > 1 {
      SplitJoin(pieces[1..], d);
      SplitConcat(pieces[0], Join(pieces[1..], d), d);
      assert pieces == [pieces[0]] + pieces[1..];
    }
  }

  /** A string made only of separators splits into empty pieces only. */
  lemma {:induction false} SplitOnlySeparators(s: string, d: char)
    requires forall k :: 0 <= k < |s| ==> s[k] == d
    ensures forall k :: 0 <= k < |Split(s, d)| ==> Split(s, d)[k] == ""
    decreases |s|
  {
    if s != [] {
      SplitOnlySeparators(s[1..], d);
    }
  }
}
