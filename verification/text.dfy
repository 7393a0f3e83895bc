/** String helpers with JavaScript semantics: `trim`, `join`, and the username pattern. */
module Text {

  /**
   * The characters `String.prototype.trim` strips: ECMAScript white space (tab, vertical tab,
   * form feed, space, no-break space, byte order mark and the Unicode space separators) and
   * the line terminators (line feed, carriage return, line and paragraph separators).
   */
  predicate IsSpace(c: char)
  {
    || c == '\t' || c == '\n' || c == '\U{000B}' || c == '\U{000C}' || c == '\r' || c == ' '
    || c == '\U{00A0}' || c == '\U{1680}' || ('\U{2000}' <= c <= '\U{200A}')
    || c == '\U{2028}' || c == '\U{2029}' || c == '\U{202F}' || c == '\U{205F}' || c == '\U{3000}'
    || c == '\U{FEFF}'
  }

  /** Every character of `s` is white space (true of the empty string). */
  predicate AllSpace(s: string)
  {
    forall k :: 0 <= k < |s| ==> IsSpace(s[k])
  }

  /** The number of white-space characters at the start of `s`. */
  function LeadingSpace(s: string): (n: nat)
    ensures n <= |s|
  {
    if |s| > 0 && IsSpace(s[0]) then 1 + LeadingSpace(s[1..]) else 0
  }

  /** The leading run is white space and stops at the first other character. */
  lemma {:induction false} LeadingSpaceIsSpace(s: string)
    ensures forall k :: 0 <= k < LeadingSpace(s) ==> IsSpace(s[k])
    ensures LeadingSpace(s) < |s| ==> !IsSpace(s[LeadingSpace(s)])
    decreases |s|
  {
    if |s| > 0 && IsSpace(s[0]) {
      var t := s[1..];
      LeadingSpaceIsSpace(t);
      forall k | 0 < k < LeadingSpace(s)
        ensures IsSpace(s[k])
      {
        assert s[k] == t[k - 1];
      }
      if LeadingSpace(s) < |s| {
        assert s[LeadingSpace(s)] == t[LeadingSpace(t)];
      }
    }
  }

  /** The number of white-space characters at the end of `s`. */
  function TrailingSpace(s: string): (n: nat)
    ensures n <= |s|
  {
    if |s| > 0 && IsSpace(s[|s| - 1]) then 1 + TrailingSpace(s[..|s| - 1]) else 0
  }

  /** The trailing run is white space and stops at the last other character. */
  lemma {:induction false} TrailingSpaceIsSpace(s: string)
    ensures forall k :: |s| - TrailingSpace(s) <= k < |s| ==> IsSpace(s[k])
    ensures TrailingSpace(s) < |s| ==> !IsSpace(s[|s| - 1 - TrailingSpace(s)])
    decreases |s|
  {
    if |s| > 0 && IsSpace(s[|s| - 1]) {
      var t := s[..|s| - 1];
      TrailingSpaceIsSpace(t);
      forall k | |s| - TrailingSpace(s) <= k < |s| - 1
        ensures IsSpace(s[k])
      {
        assert s[k] == t[k];
      }
      if TrailingSpace(s) < |s| {
        assert s[|s| - 1 - TrailingSpace(s)] == t[|t| - 1 - TrailingSpace(t)];
      }
    }
  }

  /**
   * `String.prototype.trim`: the piece of `s` between its leading and its trailing white
   * space; `TrimCutsSpace` says what lies on either side of it.
   */
  function Trim(s: string): (r: string)
    ensures LeadingSpace(s) + |r| <= |s|
    ensures r == s[LeadingSpace(s)..LeadingSpace(s) + |r|]
  {
    var a := s[LeadingSpace(s)..];
    a[..|a| - TrailingSpace(a)]
  }

  /**
   * Everything `Trim` cuts off on either side is white space, and the result neither starts
   * nor ends with white space.
   */
  lemma TrimCutsSpace(s: string)
    ensures forall k :: 0 <= k < LeadingSpace(s) ==> IsSpace(s[k])
    ensures forall k :: LeadingSpace(s) + |Trim(s)| <= k < |s| ==> IsSpace(s[k])
    ensures Trim(s) == "" || (!IsSpace(Trim(s)[0]) && !IsSpace(Trim(s)[|Trim(s)| - 1]))
  {
    LeadingSpaceIsSpace(s);
    TrimEndCutsSpace(s, LeadingSpace(s));
  }

  /** The part of the trimmed suffix `s[lo..]` that `Trim` drops at the end is white space. */
  lemma TrimEndCutsSpace(s: string, lo: nat)
    requires lo == LeadingSpace(s)
    ensures forall k :: lo + |Trim(s)| <= k < |s| ==> IsSpace(s[k])
    ensures Trim(s) != "" ==> !IsSpace(Trim(s)[|Trim(s)| - 1])
  {
    var a := s[lo..];
    var t := TrailingSpace(a);
    var r := Trim(s);
    assert r == a[..|a| - t];
    TrailingSpaceIsSpace(a);
    forall k | lo + |r| <= k < |s|
      ensures IsSpace(s[k])
    {
      assert s[k] == a[k - lo];
    }
    if r != "" {
      assert r[|r| - 1] == a[|a| - 1 - t];
    }
  }

  /** A string is blank when trimming leaves nothing: exactly when it is all white space. */
  lemma BlankIffAllSpace(s: string)
    ensures Trim(s) == "" <==> AllSpace(s)
  {
    TrimCutsSpace(s);
    if Trim(s) != "" {
      assert s[LeadingSpace(s)] == Trim(s)[0];
    }
  }

  /** Trimming a trimmed string changes nothing. */
  lemma TrimIdempotent(s: string)
    ensures Trim(Trim(s)) == Trim(s)
  {
    var r := Trim(s);
    TrimCutsSpace(s);
    assert LeadingSpace(r) == 0;
    assert r[0..] == r;
    assert TrailingSpace(r) == 0;
  }

  /** `Array.prototype.join(sep)`: the parts in order with `sep` between neighbours. */
  function Join(parts: seq<string>, sep: string): (r: string)
    ensures |parts| == 0 ==> r == ""
    ensures |parts| > 0 ==> |parts[0]| <= |r| && r[..|parts[0]|] == parts[0]
    ensures |parts| > 1 ==> |parts[0]| + |sep| <= |r| && r[|parts[0]|..|parts[0]| + |sep|] == sep
    ensures |r| == SumLengths(parts) + (if |parts| == 0 then 0 else (|parts| - 1) * |sep|)
  {
    if |parts| == 0 then ""
    else if |parts| == 1 then parts[0]
    else parts[0] + sep + Join(parts[1..], sep)
  }

  /** Joining one more part appends the separator and that part. */
  lemma {:induction false} JoinSnoc(parts: seq<string>, p: string, sep: string)
    requires |parts| > 0
    ensures Join(parts + [p], sep) == Join(parts, sep) + sep + p
    decreases |parts|, 1
  {
    if |parts| > 1 {
      JoinSnocStep(parts, p, sep);
    } else {
      assert (parts + [p])[1..] == [p];
    }
  }

  /** The inductive step of `JoinSnoc`: peel off the first part and append to the rest. */
  lemma {:induction false} JoinSnocStep(parts: seq<string>, p: string, sep: string)
    requires |parts| > 1
    ensures Join(parts + [p], sep) == Join(parts, sep) + sep + p
    decreases |parts|, 0
  {
    var head := parts[0] + sep;
    var rest := parts[1..];
    var x := Join(rest, sep);
    assert Join(parts + [p], sep) == head + (x + sep + p) by {
      assert (parts + [p])[1..] == rest + [p];
      JoinSnoc(rest, p, sep);
    }
    assert Join(parts, sep) == head + x;
    Regroup(head, x, sep, p);
  }

  /** Regrouping a concatenation of four strings. */
  lemma Regroup(a: string, b: string, c: string, d: string)
    ensures a + (b + c + d) == a + b + c + d
  {
  }

  /** The total length of the parts. */
  function SumLengths(parts: seq<string>): nat
  {
    if |parts| == 0 then 0 else |parts[0]| + SumLengths(parts[1..])
  }

  /** Joining is empty only for no parts or a single empty part, whatever the separator. */
  lemma {:induction false} JoinEmpty(parts: seq<string>, sep: string)
    requires sep != ""
    ensures Join(parts, sep) == "" <==> |parts| == 0 || (|parts| == 1 && parts[0] == "")
  {
  }

  /** A character of the username class `[a-zA-Z0-9-]`. */
  predicate IsUsernameChar(c: char)
  {
    ('a' <= c <= 'z') || ('A' <= c <= 'Z') || ('0' <= c <= '9') || c == '-'
  }

  /** A full match of the pattern `^[a-zA-Z0-9-]{3,30}$`. */
  predicate IsValidUsername(s: string)
  {
    3 <= |s| <= 30 && forall k :: 0 <= k < |s| ==> IsUsernameChar(s[k])
  }

  /** Runs the username pattern over `s` one character at a time, as a regex engine would. */
  method MatchUsernamePattern(s: string) returns (ok: bool)
    ensures ok <==> IsValidUsername(s)
  {
    if |s| < 3 || |s| > 30 {
      return false;
    }
    var k := 0;
    while k < |s|
      invariant 0 <= k <= |s|
      invariant forall m :: 0 <= m < k ==> IsUsernameChar(s[m])
    {
      if !IsUsernameChar(s[k]) {
        return false;
      }
      k := k + 1;
    }
    return true;
  }
}
