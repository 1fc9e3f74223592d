/**
 String helpers the tester relies on: Java's `String.join` and its inverse,
 splitting a string at every occurrence of one character.
 */
module Text {

  /** `String.join(sep, parts)`: the parts in order, with `sep` between each
      two consecutive ones. The result is as long as the parts together plus
      one separator between each two of them; no parts give the empty
      string. */
  function Join(sep: string, parts: seq<string>): (r: string)
    ensures |r| == TotalLength(parts) + (if |parts| == 0 then 0 else |parts| - 1) * |sep|
  {
    if |parts| == 0 then ""
    else if |parts| == 1 then parts[0]
    else parts[0] + sep + Join(sep, parts[1..])
  }

  /** Total number of characters in all parts. */
  function TotalLength(parts: seq<string>): nat
  {
    if |parts| == 0 then 0 else |parts[0]| + TotalLength(parts[1..])
  }

  /** Splits `s` at every occurrence of `c`; the pieces never contain `c`, and
      there is always one piece more than there are occurrences of `c`. */
  function Split(c: char, s: string): (r: seq<string>)
    ensures |r| >= 1
    ensures forall i :: 0 <= i < |r| ==> c !in r[i]
    decreases |s|
  {
    if |s| == 0 then [""]
    else
      var rest := Split(c, s[1..]);
      if s[0] == c then [""] + rest
      else [[s[0]] + rest[0]] + rest[1..]
  }

  /** A joined string starts with its first part. */
  lemma JoinStartsWithFirst(sep: string, parts: seq<string>)
    requires |parts| > 0
    ensures |parts[0]| <= |Join(sep, parts)|
    ensures Join(sep, parts)[..|parts[0]|] == parts[0]
  {
  }

  /** Joining two non-empty lists is joining each and putting one separator
      between the results. */
  lemma {:induction false} JoinAppend(sep: string, xs: seq<string>, ys: seq<string>)
    requires |xs| > 0 && |ys| > 0
    ensures Join(sep, xs + ys) == Join(sep, xs) + sep + Join(sep, ys)
    decreases |xs|
  {
    if |xs| == 1 {
      assert (xs + ys)[1..] == ys;
    } else {
      assert (xs + ys)[1..] == xs[1..] + ys;
      JoinAppend(sep, xs[1..], ys);
    }
  }

  /** Splitting and joining again with the same character gives back the
      original string. */
  lemma {:induction false} JoinSplit(c: char, s: string)
    ensures Join([c], Split(c, s)) == s
    decreases |s|
  {
    if |s| > 0 {
      var rest := Split(c, s[1..]);
      JoinSplit(c, s[1..]);
      if s[0] == c {
        assert Split(c, s) == [""] + rest;
        assert ([""] + rest)[1..] == rest;
        assert s == [s[0]] + s[1..];
      } else {
        if |rest| == 1 {
          assert s == [s[0]] + s[1..];
        } else {
          assert Join([c], rest) == rest[0] + [c] + Join([c], rest[1..]);
          assert s == [s[0]] + s[1..];
        }
      }
    }
  }

  /** A piece free of `c` followed by `c` and more text splits off as the
      first piece. */
  lemma {:induction false} SplitPrefix(c: char, p: string, t: string)
    requires c !in p
    ensures Split(c, p + [c] + t) == [p] + Split(c, t)
    decreases |p|
  {
    if |p| == 0 {
      assert p + [c] + t == [c] + t;
      assert ([c] + t)[1..] == t;
    } else {
      var s := p + [c] + t;
      assert s[1..] == p[1..] + [c] + t;
      SplitPrefix(c, p[1..], t);
      assert [p[0]] + p[1..] == p;
    }
  }

  /** A string free of `c` splits into itself alone. */
  lemma {:induction false} SplitNone(c: char, p: string)
    requires c !in p
    ensures Split(c, p) == [p]
    decreases |p|
  {
    if |p| > 0 {
      SplitNone(c, p[1..]);
      assert [p[0]] + p[1..] == p;
    }
  }

  /** Joining with a one-character separator that occurs in no part can be
      undone by splitting at that character, except that joining no parts
      gives the empty string, which splits into one empty piece. */
  lemma {:induction false} SplitJoin(c: char, parts: seq<string>)
    ensures (forall i :: 0 <= i < |parts| ==> c !in parts[i]) ==>
      Split(c, Join([c], parts)) == (if |parts| == 0 then [""] else parts)
    decreases |parts|
  {
    if forall i :: 0 <= i < |parts| ==> c !in parts[i] {
      if |parts| == 1 {
        SplitNone(c, parts[0]);
      } else if |parts| > 1 {
        SplitJoin(c, parts[1..]);
        assert forall i :: 0 <= i < |parts| - 1 ==> parts[1..][i] == parts[i + 1];
        SplitPrefix(c, parts[0], Join([c], parts[1..]));
        assert [parts[0]] + parts[1..] == parts;
      }
    }
  }

}
