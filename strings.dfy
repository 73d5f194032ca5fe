/** The JavaScript string and array built-ins that src/extension.ts relies on, on
    strings of characters: `Array.prototype.join`, `String.prototype.split` with a
    one-character separator, a global one-character `replace`, and the removal of a
    suffix anchored at the end of the string. */
module JsStrings {

  /** `parts.join(sep)`: the parts in order with `sep` between neighbours. */
  function Join(parts: seq<string>, sep: string): string
  {
    if parts == [] then ""
    else if |parts| == 1 then parts[0]
    else parts[0] + sep + Join(parts[1..], sep)
  }

  /** The sum of the lengths of `parts`. */
  function TotalLength(parts: seq<string>): nat
  {
    if parts == [] then 0 else |parts[0]| + TotalLength(parts[1..])
  }

  /** A join holds every part once and exactly `|parts| - 1` separators. */
  lemma {:induction false} JoinLength(parts: seq<string>, sep: string)
    requires parts != []
    ensures |Join(parts, sep)| == TotalLength(parts) + (|parts| - 1) * |sep|
  {
    if |parts| > 1 {
      JoinLength(parts[1..], sep);
    }
  }

  /** The join ends with the last part, after the join of the others and a
      separator when there are others. */
  lemma {:induction false} JoinLast(parts: seq<string>, sep: string)
    requires |parts| >= 2
    ensures Join(parts, sep) == Join(parts[..|parts| - 1], sep) + sep + parts[|parts| - 1]
  {
    var n := |parts|;
    var init, last := parts[..n - 1], parts[n - 1];
    if n == 2 {
      assert Join(init, sep) == parts[0];
    } else {
      JoinLast(parts[1..], sep);
      assert parts[1..][..n - 2] == init[1..];
      assert parts[1..][n - 2] == last;
      assert Join(init, sep) == init[0] + sep + Join(init[1..], sep);
      calc {
        Join(parts, sep);
        parts[0] + sep + Join(parts[1..], sep);
        parts[0] + sep + (Join(init[1..], sep) + sep + last);
        (parts[0] + sep + Join(init[1..], sep)) + sep + last;
      }
    }
  }

  /** Joining two non-empty lists of parts joins their joins. */
  lemma {:induction false} JoinAppend(a: seq<string>, b: seq<string>, sep: string)
    requires a != [] && b != []
    ensures Join(a + b, sep) == Join(a, sep) + sep + Join(b, sep)
  {
    if |a| == 1 {
      assert (a + b)[1..] == b;
    } else {
      JoinAppend(a[1..], b, sep);
      assert (a + b)[0] == a[0] && (a + b)[1..] == a[1..] + b;
      calc {
        Join(a + b, sep);
        a[0] + sep + Join(a[1..] + b, sep);
        a[0] + sep + (Join(a[1..], sep) + sep + Join(b, sep));
        (a[0] + sep + Join(a[1..], sep)) + sep + Join(b, sep);
      }
    }
  }

  /** `s.split(c)` for a one-character separator `c`: the maximal runs of `s`
      between occurrences of `c`; an empty `s` gives one empty part. */
  function Split(s: string, c: char): (r: seq<string>)
    ensures |r| >= 1
    ensures forall k :: 0 <= k < |r| ==> c !in r[k]
  {
    if s == [] then [""]
    else
      var rest := Split(s[1..], c);
      if s[0] == c then [""] + rest
      else [[s[0]] + rest[0]] + rest[1..]
  }

  /** Joining the parts of a split with the same separator gives back the string. */
  lemma {:induction false} JoinSplit(s: string, c: char)
    ensures Join(Split(s, c), [c]) == s
  {
    if s != [] {
      var rest := Split(s[1..], c);
      JoinSplit(s[1..], c);
      if s[0] == c {
        assert Split(s, c) == [""] + rest;
        assert ([""] + rest)[1..] == rest;
        assert Join([""] + rest, [c]) == "" + [c] + Join(rest, [c]);
      } else {
        var parts := [[s[0]] + rest[0]] + rest[1..];
        assert Split(s, c) == parts;
        if |rest| == 1 {
          assert Join(parts, [c]) == [s[0]] + rest[0];
        } else {
          assert parts[1..] == rest[1..];
          assert Join(parts, [c]) == [s[0]] + (rest[0] + [c] + Join(rest[1..], [c]));
        }
      }
    }
  }

  /** Splitting a string free of `c` gives that string as the only part. */
  lemma {:induction false} SplitWithoutSeparator(a: string, c: char)
    requires c !in a
    ensures Split(a, c) == [a]
  {
    if a != [] {
      assert c !in a[1..] by {
        forall x | x in a[1..] ensures x in a { }
      }
      SplitWithoutSeparator(a[1..], c);
      assert [a[0]] + a[1..] == a;
    }
  }

  /** Splitting `a`, a separator and `b` gives the parts of `a` followed by the
      parts of `b`. */
  lemma {:induction false} SplitConcat(a: string, b: string, c: char)
    ensures Split(a + [c] + b, c) == Split(a, c) + Split(b, c)
  {
    var s := a + [c] + b;
    if a == [] {
      assert s[0] == c && s[1..] == b;
    } else {
      assert s[0] == a[0] && s[1..] == a[1..] + [c] + b;
      SplitConcat(a[1..], b, c);
      SplitCons(s, Split(a[1..], c), Split(b, c), c);
    }
  }

  /** One step of `Split` on a string whose remainder splits into `head + tail`,
      with `head` non-empty. */
  lemma SplitCons(s: string, head: seq<string>, tail: seq<string>, c: char)
    requires s != [] && head != [] && Split(s[1..], c) == head + tail
    ensures Split(s, c) ==
      (if s[0] == c then [""] + head else [[s[0]] + head[0]] + head[1..]) + tail
  {
    var rest := head + tail;
    if s[0] != c {
      assert rest[0] == head[0] && rest[1..] == head[1..] + tail;
    }
  }

  /** Splitting a join gives back the parts, provided no part contains the
      separator. */
  lemma {:induction false} SplitJoin(parts: seq<string>, c: char)
    requires parts != []
    requires forall k :: 0 <= k < |parts| ==> c !in parts[k]
    ensures Split(Join(parts, [c]), c) == parts
  {
    if |parts| == 1 {
      SplitWithoutSeparator(parts[0], c);
    } else {
      SplitJoin(parts[1..], c);
      SplitConcat(parts[0], Join(parts[1..], [c]), c);
      SplitWithoutSeparator(parts[0], c);
    }
  }

  /** `s.replace(/from/g, to)` for single characters; it keeps the length. */
  function ReplaceAll(s: string, from: char, to: char): (r: string)
    ensures |r| == |s|
  {
    if s == [] then []
    else [if s[0] == from then to else s[0]] + ReplaceAll(s[1..], from, to)
  }

  /** Every occurrence of `from` becomes `to`, and every other character stays
      where it is. */
  lemma {:induction false} ReplaceAllAt(s: string, from: char, to: char)
    ensures forall k :: 0 <= k < |s| ==> ReplaceAll(s, from, to)[k] == if s[k] == from then to else s[k]
  {
    if s != [] {
      ReplaceAllAt(s[1..], from, to);
    }
  }

  /** Replacing distributes over concatenation. */
  lemma {:induction false} ReplaceAllConcat(a: string, b: string, from: char, to: char)
    ensures ReplaceAll(a + b, from, to) == ReplaceAll(a, from, to) + ReplaceAll(b, from, to)
  {
    var r, ra, rb := ReplaceAll(a + b, from, to), ReplaceAll(a, from, to), ReplaceAll(b, from, to);
    ReplaceAllAt(a + b, from, to);
    ReplaceAllAt(a, from, to);
    ReplaceAllAt(b, from, to);
    assert forall k :: 0 <= k < |r| ==> r[k] == (ra + rb)[k] by {
      forall k | 0 <= k < |r| ensures r[k] == (ra + rb)[k] {
        if k < |a| {
          assert (a + b)[k] == a[k];
        } else {
          assert (a + b)[k] == b[k - |a|];
        }
      }
    }
  }

  /** Replacing a character that does not occur changes nothing. */
  lemma ReplaceAllAbsent(s: string, from: char, to: char)
    requires from !in s
    ensures ReplaceAll(s, from, to) == s
  {
    var r := ReplaceAll(s, from, to);
    ReplaceAllAt(s, from, to);
    assert forall k :: 0 <= k < |s| ==> s[k] != from;
  }

  /** Whether `s` ends with `suffix`. */
  predicate EndsWith(s: string, suffix: string) {
    |suffix| <= |s| && s[|s| - |suffix|..] == suffix
  }

  /** `s.replace(/suffix$/, '')` for a literal suffix: drops one occurrence of
      `suffix` at the very end of `s`, and nothing otherwise. */
  function StripSuffix(s: string, suffix: string): (r: string)
    ensures EndsWith(s, suffix) ==> r + suffix == s
    ensures !EndsWith(s, suffix) ==> r == s
  {
    if EndsWith(s, suffix) then s[..|s| - |suffix|] else s
  }
}
