/**
  The string primitives of the .NET base library that the manifest codec uses:
  `String.Split(char)`, `String.Replace(char, char)`, and the trimming of the
  white space that `NumberStyles.Integer` skips around a number.
  Strings are sequences of Unicode scalar values; a .NET string stands for its
  decoding, and ill-formed UTF-16 (a lone surrogate) is not modelled.
*/
module Text {

  /** The characters `NumberStyles.AllowLeadingWhite`/`AllowTrailingWhite` skip:
      U+0009 to U+000D and U+0020. */
  predicate IsWhite(c: char) {
    c == ' ' || ('\t' <= c <= '\r')
  }

  /** Every character of `s` is white space. */
  predicate AllWhite(s: string) {
    forall i :: 0 <= i < |s| ==> IsWhite(s[i])
  }

  /** Number of occurrences of `c` in `s`. */
  function Count(s: string, c: char): (n: nat)
    ensures n <= |s|
    ensures n == 0 <==> c !in s
  {
    if |s| == 0 then 0 else (if s[0] == c then 1 else 0) + Count(s[1..], c)
  }

  /** The fields joined back together with the delimiter between them. */
  function Join(fields: seq<string>, d: char): string
    requires |fields| > 0
  {
    if |fields| == 1 then fields[0] else fields[0] + [d] + Join(fields[1..], d)
  }

  /** `s.Split(d)`: every field, empty ones included, in order. */
  function Split(s: string, d: char): (fields: seq<string>)
    ensures |fields| == Count(s, d) + 1
    ensures forall i :: 0 <= i < |fields| ==> d !in fields[i]
    ensures Join(fields, d) == s
  {
    if |s| == 0 then [""]
    else
      var rest := Split(s[1..], d);
      if s[0] == d then
        var r := [""] + rest;
        assert r[1..] == rest;
        r
      else
        var r := [[s[0]] + rest[0]] + rest[1..];
        assert |rest| > 1 ==> r[1..] == rest[1..] && Join(rest, d) == rest[0] + [d] + Join(rest[1..], d);
        assert s == [s[0]] + s[1..];
        r
  }

  /** A string without the delimiter is a single field (by the contract of `Split`). */
  lemma SplitWithoutDelimiter(s: string, d: char)
    requires d !in s
    ensures Split(s, d) == [s]
  {
  }

  /** Text up to the first delimiter becomes the first field. */
  lemma {:induction false} SplitAtFirstDelimiter(a: string, d: char, b: string)
    requires d !in a
    ensures Split(a + [d] + b, d) == [a] + Split(b, d)
  {
    var s := a + [d] + b;
    if |a| == 0 {
      assert s[1..] == b;
    } else {
      assert s[1..] == a[1..] + [d] + b;
      SplitAtFirstDelimiter(a[1..], d, b);
      assert [a[0]] + a[1..] == a;
    }
  }

  /** Splitting undoes joining when no field contains the delimiter. */
  lemma {:induction false} SplitJoin(fields: seq<string>, d: char)
    requires |fields| > 0
    requires forall i :: 0 <= i < |fields| ==> d !in fields[i]
    ensures Split(Join(fields, d), d) == fields
  {
    if |fields| == 1 {
      SplitWithoutDelimiter(fields[0], d);
    } else {
      SplitJoin(fields[1..], d);
      SplitAtFirstDelimiter(fields[0], d, Join(fields[1..], d));
      assert [fields[0]] + fields[1..] == fields;
    }
  }

  /** `s.Replace(from, to)`: every `from` replaced by `to`, nothing else touched. */
  function Replace(s: string, from: char, to: char): (r: string)
    ensures |r| == |s|
    ensures forall i :: 0 <= i < |s| ==> r[i] == if s[i] == from then to else s[i]
    ensures from != to ==> from !in r
    ensures from !in s ==> r == s
  {
    if |s| == 0 then []
    else [if s[0] == from then to else s[0]] + Replace(s[1..], from, to)
  }

  /** Leading white space removed. */
  function TrimStart(s: string): (r: string)
    ensures |r| > 0 ==> !IsWhite(r[0])
  {
    if |s| > 0 && IsWhite(s[0]) then TrimStart(s[1..]) else s
  }

  /** Trailing white space removed. */
  function TrimEnd(s: string): (r: string)
    ensures |r| > 0 ==> !IsWhite(r[|r| - 1])
  {
    if |s| > 0 && IsWhite(s[|s| - 1]) then TrimEnd(s[..|s| - 1]) else s
  }

  /** White space on both sides removed. */
  function Trim(s: string): string {
    TrimEnd(TrimStart(s))
  }

  /** A character appended to a string moves past the leading white space. */
  lemma {:induction false} TrimStartAppend(s: string, c: char)
    ensures TrimStart(s + [c]) ==
            if TrimStart(s) == [] then (if IsWhite(c) then [] else [c]) else TrimStart(s) + [c]
  {
    if |s| > 0 {
      assert (s + [c])[1..] == s[1..] + [c];
      if IsWhite(s[0]) {
        TrimStartAppend(s[1..], c);
      }
    }
  }

  /** One white character more at the end does not change the trimmed string. */
  lemma TrimIgnoresTrailingWhite(s: string, v: char)
    requires IsWhite(v)
    ensures Trim(s + [v]) == Trim(s)
  {
    TrimStartAppend(s, v);
    if TrimStart(s) != [] {
      var u := TrimStart(s) + [v];
      assert u[..|u| - 1] == TrimStart(s);
    }
  }

  /** A run of white space in front is passed over by `TrimStart`. */
  lemma {:induction false} TrimStartSkipsWhite(pre: string, s: string)
    requires AllWhite(pre)
    ensures TrimStart(pre + s) == TrimStart(s)
  {
    if |pre| > 0 {
      assert (pre + s)[1..] == pre[1..] + s;
      assert AllWhite(pre[1..]) by {
        forall i | 0 <= i < |pre[1..]| ensures IsWhite(pre[1..][i]) {
          assert pre[1..][i] == pre[i + 1];
        }
      }
      TrimStartSkipsWhite(pre[1..], s);
    } else {
      assert pre + s == s;
    }
  }

  /** Runs of white space before and after do not change the trimmed string. */
  lemma {:induction false} TrimIgnoresSurroundingWhite(pre: string, s: string, post: string)
    requires AllWhite(pre) && AllWhite(post)
    ensures Trim(pre + s + post) == Trim(s)
    decreases |post|
  {
    if |post| == 0 {
      assert pre + s + post == pre + s;
      TrimStartSkipsWhite(pre, s);
    } else {
      var front := post[..|post| - 1];
      var v := post[|post| - 1];
      assert pre + s + post == (pre + s + front) + [v];
      assert AllWhite(front) by {
        forall i | 0 <= i < |front| ensures IsWhite(front[i]) {
          assert front[i] == post[i];
        }
      }
      TrimIgnoresTrailingWhite(pre + s + front, v);
      TrimIgnoresSurroundingWhite(pre, s, front);
    }
  }

  /** A string that starts and ends with other characters is its own trim. */
  lemma TrimOfUnpadded(s: string)
    requires |s| > 0 && !IsWhite(s[0]) && !IsWhite(s[|s| - 1])
    ensures Trim(s) == s
  {
  }
}
