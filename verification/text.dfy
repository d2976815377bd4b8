/**
 * The host string primitives the calendar helpers rely on:
 * `String.prototype.padStart` with a one-character fill, `Array.prototype.join`
 * with a one-character separator, and a `Split` that undoes the join.
 */
module Text {

  /** `k` copies of the character `c`. */
  function Repeat(c: char, k: nat): (s: string)
    ensures |s| == k
    ensures forall i :: 0 <= i < k ==> s[i] == c
  {
    if k == 0 then [] else Repeat(c, k - 1) + [c]
  }

  /**
   * `s.padStart(targetLength, fill)`: a string already at or past the target
   * length is returned unchanged; otherwise copies of `fill` are put in front
   * until the target length is reached.
   */
  function PadStart(s: string, targetLength: int, fill: char): (r: string)
    ensures |r| == if targetLength <= |s| then |s| else targetLength
    ensures r[|r| - |s|..] == s
    ensures forall i :: 0 <= i < |r| - |s| ==> r[i] == fill
  {
    if targetLength <= |s| then s else Repeat(fill, targetLength - |s|) + s
  }

  /** `parts.join(sep)`: the parts in order with one separator between neighbours. */
  function Join(parts: seq<string>, sep: char): (r: string)
    decreases |parts|
  {
    if |parts| == 0 then []
    else if |parts| == 1 then parts[0]
    else parts[0] + [sep] + Join(parts[1..], sep)
  }

  /** The combined length of the parts, separators not counted. */
  function TotalLength(parts: seq<string>): (n: nat)
    ensures parts != [] ==> |parts[0]| <= n && |parts[|parts| - 1]| <= n
    decreases |parts|
  {
    if parts == [] then 0
    else
      assert |parts| >= 2 ==> parts[1..][|parts| - 2] == parts[|parts| - 1];
      |parts[0]| + TotalLength(parts[1..])
  }

  /** A separator put in front of the first part comes out in front of the whole join. */
  lemma JoinLeadingSeparator(p: string, rest: seq<string>, sep: char)
    ensures Join([[sep] + p] + rest, sep) == [sep] + Join([p] + rest, sep)
  {
    if rest != [] {
      assert ([[sep] + p] + rest)[1..] == rest;
      assert ([p] + rest)[1..] == rest;
    }
  }

  /** A join of non-empty parts is empty exactly when there are no parts. */
  lemma JoinOfNonEmptyParts(parts: seq<string>, sep: char)
    requires forall i :: 0 <= i < |parts| ==> parts[i] != []
    ensures Join(parts, sep) == [] <==> parts == []
  {
    JoinLength(parts, sep);
  }

  /** The join is as long as its parts together, plus one separator per gap between neighbours. */
  lemma {:induction false} JoinLength(parts: seq<string>, sep: char)
    ensures |Join(parts, sep)| == if parts == [] then 0 else TotalLength(parts) + |parts| - 1
    decreases |parts|
  {
    if |parts| >= 2 {
      JoinLength(parts[1..], sep);
    }
  }

  /**
   * The join starts with the first part, ends with the last one, and puts a
   * separator right after the first part when there is more than one.
   */
  lemma {:induction false} JoinEnds(parts: seq<string>, sep: char)
    requires parts != []
    ensures var r := Join(parts, sep);
      && |parts[0]| <= |r| && r[..|parts[0]|] == parts[0]
      && |parts[|parts| - 1]| <= |r| && r[|r| - |parts[|parts| - 1]|..] == parts[|parts| - 1]
      && (|parts| >= 2 ==> |parts[0]| < |r| && r[|parts[0]|] == sep)
    decreases |parts|
  {
    JoinLength(parts, sep);
    if |parts| >= 2 {
      JoinEnds(parts[1..], sep);
      JoinLength(parts[1..], sep);
      var rest := Join(parts[1..], sep);
      assert Join(parts, sep) == parts[0] + [sep] + rest;
      assert parts[1..][|parts[1..]| - 1] == parts[|parts| - 1];
    }
  }

  /** The pieces of `s` between occurrences of `sep`; there is always at least one. */
  function Split(s: string, sep: char): (parts: seq<string>)
    ensures |parts| >= 1
    ensures forall p :: p in parts ==> sep !in p
    decreases |s|
  {
    if s == [] then [[]]
    else
      var rest := Split(s[1..], sep);
      if s[0] == sep then [[]] + rest
      else [[s[0]] + rest[0]] + rest[1..]
  }

  /** Joining the pieces of a split gives back the original string. */
  lemma {:induction false} JoinSplit(s: string, sep: char)
    ensures Join(Split(s, sep), sep) == s
    decreases |s|
  {
    if s != [] {
      var rest := Split(s[1..], sep);
      JoinSplit(s[1..], sep);
      if s[0] == sep {
        assert ([[]] + rest)[1..] == rest;
      } else {
        var parts := [[s[0]] + rest[0]] + rest[1..];
        if |rest| > 1 {
          assert parts[1..] == rest[1..];
          assert Join(rest, sep) == rest[0] + [sep] + Join(rest[1..], sep);
        }
        assert s == [s[0]] + s[1..];
      }
    }
  }

  /** Splitting a string that has no separator yields that string alone. */
  lemma {:induction false} SplitWithoutSeparator(s: string, sep: char)
    requires sep !in s
    ensures Split(s, sep) == [s]
    decreases |s|
  {
    if s != [] {
      assert sep !in s[1..] by {
        forall i | 0 <= i < |s[1..]| ensures s[1..][i] != sep {
          assert s[1..][i] == s[i + 1];
        }
      }
      SplitWithoutSeparator(s[1..], sep);
      assert s == [s[0]] + s[1..];
    }
  }

  /** A separator after a separator-free prefix ends the first piece. */
  lemma {:induction false} SplitAtFirstSeparator(a: string, b: string, sep: char)
    requires sep !in a
    ensures Split(a + [sep] + b, sep) == [a] + Split(b, sep)
    decreases |a|
  {
    var s := a + [sep] + b;
    if a == [] {
      assert s[1..] == b;
    } else {
      assert sep !in a[1..] by {
        forall i | 0 <= i < |a[1..]| ensures a[1..][i] != sep {
          assert a[1..][i] == a[i + 1];
        }
      }
      SplitAtFirstSeparator(a[1..], b, sep);
      assert s[1..] == a[1..] + [sep] + b;
      assert a == [a[0]] + a[1..];
    }
  }

  /** Splitting a join of separator-free parts gives back the parts. */
  lemma {:induction false} SplitJoin(parts: seq<string>, sep: char)
    requires |parts| >= 1
    requires forall p :: p in parts ==> sep !in p
    ensures Split(Join(parts, sep), sep) == parts
    decreases |parts|
  {
    if |parts| == 1 {
      SplitWithoutSeparator(parts[0], sep);
    } else {
      assert parts[0] in parts;
      assert forall p :: p in parts[1..] ==> p in parts;
      SplitJoin(parts[1..], sep);
      SplitAtFirstSeparator(parts[0], Join(parts[1..], sep), sep);
      assert parts == [parts[0]] + parts[1..];
    }
  }

  /** A join of `k >= 1` separator-free parts holds exactly `k - 1` separators. */
  lemma {:induction false} JoinSeparatorCount(parts: seq<string>, sep: char)
    requires |parts| >= 1
    requires forall p :: p in parts ==> sep !in p
    ensures multiset(Join(parts, sep))[sep] == |parts| - 1
    decreases |parts|
  {
    assert parts[0] in parts;
    assert multiset(parts[0])[sep] == 0;
    if |parts| > 1 {
      assert forall p :: p in parts[1..] ==> p in parts;
      JoinSeparatorCount(parts[1..], sep);
      assert multiset(parts[0] + [sep] + Join(parts[1..], sep))
          == multiset(parts[0]) + multiset{sep} + multiset(Join(parts[1..], sep));
    }
  }
}
