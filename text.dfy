/** String helpers with the semantics of the JavaScript built-ins the frontend relies on:
    `split` with a non-empty separator, `join`, `trim`, and (ASCII) case mapping. */
module Text {

  /** True when `sep` occurs in `s` starting at position `i`. */
  predicate OccursAt<T(==)>(s: seq<T>, sep: seq<T>, i: int)
  {
    0 <= i && i + |sep| <= |s| && s[i..i + |sep|] == sep
  }

  /** True when `sep` occurs in `s` at some position. */
  predicate Contains<T(==)>(s: seq<T>, sep: seq<T>)
  {
    exists i :: 0 <= i <= |s| && OccursAt(s, sep, i)
  }

  /** `s.split(sep)`: the pieces between the leftmost, non-overlapping occurrences
      of `sep`, scanning from the left. There is always at least one piece. */
  function Split<T(==)>(s: seq<T>, sep: seq<T>): (parts: seq<seq<T>>)
    requires |sep| > 0
    ensures |parts| >= 1
    decreases |s|
  {
    if |sep| <= |s| && s[..|sep|] == sep then
      [[]] + Split(s[|sep|..], sep)
    else if |s| == 0 then
      [[]]
    else
      var rest := Split(s[1..], sep);
      [[s[0]] + rest[0]] + rest[1..]
  }

  /** `parts.join(sep)`. */
  function Join<T>(parts: seq<seq<T>>, sep: seq<T>): seq<T>
  {
    if |parts| == 0 then []
    else if |parts| == 1 then parts[0]
    else parts[0] + sep + Join(parts[1..], sep)
  }

  /** Joining the pieces of a split with the same separator gives the text back. */
  lemma {:induction false} JoinSplit<T>(s: seq<T>, sep: seq<T>)
    requires |sep| > 0
    ensures Join(Split(s, sep), sep) == s
    decreases |s|
  {
    if |sep| <= |s| && s[..|sep|] == sep {
      JoinSplit(s[|sep|..], sep);
      assert s == sep + s[|sep|..];
    } else if |s| > 0 {
      var rest := Split(s[1..], sep);
      JoinSplit(s[1..], sep);
      var parts := [[s[0]] + rest[0]] + rest[1..];
      assert Split(s, sep) == parts;
      if |rest| > 1 {
        assert parts[1..] == rest[1..];
        assert Join(rest, sep) == rest[0] + sep + Join(rest[1..], sep);
      }
      assert s == [s[0]] + s[1..];
    }
  }

  /** Extending a joined sequence by one more piece. */
  lemma {:induction false} JoinSnoc<T>(parts: seq<seq<T>>, p: seq<T>, sep: seq<T>)
    requires |parts| > 0
    ensures Join(parts + [p], sep) == Join(parts, sep) + sep + p
  {
    if |parts| == 1 {
      assert (parts + [p])[1..] == [p];
    } else {
      assert (parts + [p])[1..] == parts[1..] + [p];
      JoinSnoc(parts[1..], p, sep);
    }
  }

  /** A one-element separator never survives inside a piece. */
  lemma {:induction false} SplitPiecesFree<T>(s: seq<T>, c: T)
    ensures forall i :: 0 <= i < |Split(s, [c])| ==> c !in Split(s, [c])[i]
    decreases |s|
  {
    if 1 <= |s| && s[..1] == [c] {
      SplitPiecesFree(s[1..], c);
      assert forall i :: 1 <= i < |Split(s, [c])| ==> Split(s, [c])[i] == Split(s[1..], [c])[i - 1];
    } else if |s| > 0 {
      SplitPiecesFree(s[1..], c);
      var rest := Split(s[1..], [c]);
      assert s[0] != c by { assert s[..1] == [s[0]]; }
      assert forall i :: 1 <= i < |Split(s, [c])| ==> Split(s, [c])[i] == rest[i];
    }
  }

  /** A text in which the separator does not occur splits into itself alone. */
  lemma {:induction false} SplitAbsent<T>(s: seq<T>, sep: seq<T>)
    requires |sep| > 0 && !Contains(s, sep)
    ensures Split(s, sep) == [s]
    decreases |s|
  {
    assert !OccursAt(s, sep, 0);
    assert |sep| <= |s| ==> s[..|sep|] == s[0..0 + |sep|];
    if |s| > 0 {
      if Contains(s[1..], sep) {
        var i :| 0 <= i <= |s[1..]| && OccursAt(s[1..], sep, i);
        assert s[1..][i..i + |sep|] == s[i + 1..i + 1 + |sep|];
        assert OccursAt(s, sep, i + 1);
        assert false;
      }
      SplitAbsent(s[1..], sep);
      assert s == [s[0]] + s[1..];
    }
  }

  /** A text in which the separator occurs splits into at least two pieces. */
  lemma {:induction false} SplitPresent<T>(s: seq<T>, sep: seq<T>, i: nat)
    requires |sep| > 0 && OccursAt(s, sep, i)
    ensures |Split(s, sep)| >= 2
    decreases i
  {
    if |sep| <= |s| && s[..|sep|] == sep {
    } else {
      assert i > 0;
      assert s[1..][i - 1..i - 1 + |sep|] == s[i..i + |sep|];
      SplitPresent(s[1..], sep, i - 1);
    }
  }

  /** The text splits into a single piece exactly when the separator does not occur in it. */
  lemma SplitSingleIff<T>(s: seq<T>, sep: seq<T>)
    requires |sep| > 0
    ensures |Split(s, sep)| == 1 <==> !Contains(s, sep)
  {
    if Contains(s, sep) {
      var i :| 0 <= i <= |s| && OccursAt(s, sep, i);
      SplitPresent(s, sep, i);
    } else {
      SplitAbsent(s, sep);
    }
  }

  /** Text before a first occurrence of the separator becomes the first piece. */
  lemma {:induction false} SplitAtFirst<T>(a: seq<T>, sep: seq<T>, b: seq<T>)
    requires |sep| > 0
    requires forall i :: 0 <= i < |a| ==> !OccursAt(a + sep + b, sep, i)
    ensures Split(a + sep + b, sep) == [a] + Split(b, sep)
    decreases |a|
  {
    var s := a + sep + b;
    if |a| == 0 {
      assert s == sep + b;
      assert s[..|sep|] == sep;
      assert s[|sep|..] == b;
    } else {
      assert !OccursAt(s, sep, 0);
      assert s[..|sep|] == s[0..0 + |sep|];
      assert s[1..] == a[1..] + sep + b;
      forall i | 0 <= i < |a[1..]|
        ensures !OccursAt(a[1..] + sep + b, sep, i)
      {
        assert !OccursAt(s, sep, i + 1);
        assert (a[1..] + sep + b)[i..i + |sep|] == s[i + 1..i + 1 + |sep|];
      }
      SplitAtFirst(a[1..], sep, b);
      assert a == [a[0]] + a[1..];
    }
  }

  /** The last piece of a split on one element is the suffix after its last occurrence. */
  lemma {:induction false} SplitLastPiece<T>(s: seq<T>, c: T)
    ensures var l := Split(s, [c])[|Split(s, [c])| - 1];
      && |l| <= |s| && l == s[|s| - |l|..] && c !in l
      && (|l| < |s| ==> s[|s| - |l| - 1] == c)
    decreases |s|
  {
    SplitPiecesFree(s, c);
    if 1 <= |s| && s[..1] == [c] {
      SplitLastPiece(s[1..], c);
    } else if |s| > 0 {
      SplitLastPiece(s[1..], c);
      var rest := Split(s[1..], [c]);
      if |rest| == 1 {
        assert Split(s, [c]) == [[s[0]] + rest[0]];
        SplitAbsentOne(s[1..], c, rest);
        assert [s[0]] + rest[0] == s;
      } else {
        var n := |rest|;
        assert Split(s, [c])[|Split(s, [c])| - 1] == rest[n - 1];
        assert rest == rest[..n - 1] + [rest[n - 1]];
        JoinSnoc(rest[..n - 1], rest[n - 1], [c]);
        JoinSplit(s[1..], [c]);
      }
    }
  }

  /** Splitting on one element distributes over a concatenation at an occurrence of it. */
  lemma {:induction false} SplitConcat<T>(a: seq<T>, c: T, b: seq<T>)
    ensures Split(a + [c] + b, [c]) == Split(a, [c]) + Split(b, [c])
    decreases |a|
  {
    var s := a + [c] + b;
    if |a| == 0 {
      assert s == [c] + b && s[..1] == [c] && s[1..] == b;
    } else if a[..1] == [c] {
      assert s[..1] == [c];
      assert s[1..] == a[1..] + [c] + b;
      SplitConcat(a[1..], c, b);
    } else {
      assert s[..1] == a[..1];
      assert s[1..] == a[1..] + [c] + b;
      SplitConcat(a[1..], c, b);
    }
  }

  /** A split on one element into a single piece returns the text. */
  lemma SplitAbsentOne<T>(s: seq<T>, c: T, parts: seq<seq<T>>)
    requires parts == Split(s, [c]) && |parts| == 1
    ensures parts[0] == s
  {
    JoinSplit(s, [c]);
  }

  /** The whitespace and line-terminator characters that JavaScript's `trim` removes. */
  predicate IsSpace(c: char)
  {
    c == ' ' || c == '\t' || c == '\n' || c == '\r' || c == '\U{000B}' || c == '\U{000C}'
    || c == '\U{00A0}' || c == '\U{1680}' || ('\U{2000}' <= c <= '\U{200A}')
    || c == '\U{2028}' || c == '\U{2029}' || c == '\U{202F}' || c == '\U{205F}'
    || c == '\U{3000}' || c == '\U{FEFF}'
  }

  predicate AllSpace(s: string)
  {
    forall i :: 0 <= i < |s| ==> IsSpace(s[i])
  }

  /** `s.trimStart()`: drops the leading whitespace, nothing else (see `TrimStartShape`). */
  function TrimStart(s: string): (r: string)
    ensures |r| <= |s|
  {
    if |s| > 0 && IsSpace(s[0]) then TrimStart(s[1..]) else s
  }

  /** `s.trimEnd()`: drops the trailing whitespace, nothing else (see `TrimEndShape`). */
  function TrimEnd(s: string): (r: string)
    ensures |r| <= |s|
  {
    if |s| > 0 && IsSpace(s[|s| - 1]) then TrimEnd(s[..|s| - 1]) else s
  }

  /** `trimStart` keeps a suffix that does not start with whitespace, and drops only whitespace. */
  lemma {:induction false} TrimStartShape(s: string)
    ensures var r := TrimStart(s);
      && r == s[|s| - |r|..] && AllSpace(s[..|s| - |r|])
      && (r == [] || !IsSpace(r[0]))
  {
    if |s| > 0 && IsSpace(s[0]) {
      TrimStartShape(s[1..]);
      var r := TrimStart(s[1..]);
      assert s[1..][|s| - 1 - |r|..] == s[|s| - |r|..];
      var dropped := s[..|s| - |r|];
      forall k | 0 <= k < |dropped| ensures IsSpace(dropped[k]) {
        if k > 0 {
          assert s[1..][..|s| - 1 - |r|][k - 1] == s[k];
        }
      }
    } else {
      assert s[|s| - |s|..] == s;
    }
  }

  /** `trimEnd` keeps a prefix that does not end with whitespace, and drops only whitespace. */
  lemma {:induction false} TrimEndShape(s: string)
    ensures var r := TrimEnd(s);
      && r == s[..|r|] && AllSpace(s[|r|..])
      && (r == [] || !IsSpace(r[|r| - 1]))
  {
    if |s| > 0 && IsSpace(s[|s| - 1]) {
      var p := s[..|s| - 1];
      TrimEndShape(p);
      var r := TrimEnd(p);
      assert p[..|r|] == s[..|r|];
      var dropped := s[|r|..];
      forall k | 0 <= k < |dropped| ensures IsSpace(dropped[k]) {
        if k < |s| - 1 - |r| {
          assert p[|r|..][k] == s[|r| + k];
        }
      }
    } else {
      assert s[..|s|] == s;
    }
  }

  /** `s.trim()`. */
  function Trim(s: string): string
  {
    TrimEnd(TrimStart(s))
  }

  /** A text trims to nothing exactly when it is all whitespace (an empty text included). */
  lemma TrimEmptyIff(s: string)
    ensures Trim(s) == [] <==> AllSpace(s)
  {
    TrimStartShape(s);
    var t := TrimStart(s);
    TrimEndShape(t);
    if t == [] {
      assert s[..|s|] == s;
    } else {
      assert t[0] == s[|s| - |t|];
      var r := TrimEnd(t);
      assert forall k :: |r| <= k < |t| ==> IsSpace(t[k]) by {
        assert forall k :: |r| <= k < |t| ==> t[k] == t[|r|..][k - |r|];
      }
    }
  }

  /** `s.trim()` keeps a middle part of the text, bounded by non-whitespace. */
  lemma TrimBounds(s: string)
    ensures |Trim(s)| <= |s|
    ensures Trim(s) == [] || (!IsSpace(Trim(s)[0]) && !IsSpace(Trim(s)[|Trim(s)| - 1]))
  {
    TrimStartShape(s);
    var t := TrimStart(s);
    TrimEndShape(t);
    var r := TrimEnd(t);
    if r != [] {
      assert r[0] == t[0];
    }
  }

  /** `c.toLowerCase()` on the ASCII letters. */
  function LowerChar(c: char): char
  {
    if 'A' <= c <= 'Z' then (c as int + 32) as char else c
  }

  /** `c.toUpperCase()` on the ASCII letters. */
  function UpperChar(c: char): char
  {
    if 'a' <= c <= 'z' then (c as int - 32) as char else c
  }

  /** `s.toLowerCase()`: the same length, each character lowered. */
  function Lower(s: string): (r: string)
    ensures |r| == |s|
    ensures forall i :: 0 <= i < |s| ==> r[i] == LowerChar(s[i])
  {
    if |s| == 0 then [] else [LowerChar(s[0])] + Lower(s[1..])
  }

  /** The `chars[0] = chars[0].toUpperCase(); chars.join('')` idiom on a non-empty text. */
  function Capitalize(s: string): (r: string)
    requires |s| > 0
    ensures |r| == |s| && r[0] == UpperChar(s[0]) && r[1..] == s[1..]
  {
    [UpperChar(s[0])] + s[1..]
  }

  /** Capitalising twice is capitalising once: an upper-cased first character stays as it is. */
  lemma CapitalizeIdempotent(s: string)
    requires |s| > 0
    ensures Capitalize(Capitalize(s)) == Capitalize(s)
  {
    assert UpperChar(UpperChar(s[0])) == UpperChar(s[0]);
  }

  /** A text without upper-case ASCII letters is its own lower case. */
  lemma {:induction false} LowerPlain(s: string)
    requires forall i :: 0 <= i < |s| ==> !('A' <= s[i] <= 'Z')
    ensures Lower(s) == s
  {
    if |s| > 0 {
      LowerPlain(s[1..]);
      assert s == [s[0]] + s[1..];
    }
  }

  /** Lower-casing is idempotent, so comparing `v.toLowerCase()` to a lower-case word is case-insensitive. */
  lemma LowerIdempotent(s: string)
    ensures Lower(Lower(s)) == Lower(s)
  {
  }
}
