/**
  The string operations the dispatch layer relies on: ASCII lower-casing
  (`str.lower`), joining with a separator (`str.join`), removing every
  occurrence of a word (`str.replace(word, '')`) and cutting a text at its
  first occurrence of a character.
 */
module Text {

  predicate IsUpper(c: char) {
    'A' <= c <= 'Z'
  }

  /** Lower-cases one ASCII letter and leaves every other character alone. */
  function LowerChar(c: char): (r: char)
    ensures !IsUpper(r)
    ensures IsUpper(c) ==> r as int == c as int + 32
    ensures !IsUpper(c) ==> r == c
  {
    if IsUpper(c) then (c as int + 32) as char else c
  }

  /** A string that lower-casing leaves unchanged. */
  predicate IsLowered(s: string) {
    forall i :: 0 <= i < |s| ==> !IsUpper(s[i])
  }

  /** `s.lower()`, restricted to ASCII letters: each character lower-cased
      in place. */
  function Lower(s: string): (r: string)
    ensures |r| == |s|
    ensures IsLowered(r)
    ensures forall i :: 0 <= i < |s| && IsUpper(s[i]) ==> r[i] as int == s[i] as int + 32
    ensures forall i :: 0 <= i < |s| && !IsUpper(s[i]) ==> r[i] == s[i]
  {
    seq(|s|, i requires 0 <= i < |s| => LowerChar(s[i]))
  }

  /** Lower-casing is idempotent, and it changes exactly the strings that hold
      an upper-case letter. */
  lemma LowerIdempotent(s: string)
    ensures Lower(Lower(s)) == Lower(s)
    ensures Lower(s) == s <==> IsLowered(s)
  {
  }

  /** `sep.join(ks)`: the strings of `ks` in order, with `sep` between
      neighbours. */
  function Join(ks: seq<string>, sep: string): (joined: string)
  {
    if |ks| == 0 then ""
    else if |ks| == 1 then ks[0]
    else ks[0] + sep + Join(ks[1..], sep)
  }

  /** Where the `i`-th string starts in `Join(ks, sep)`: after every earlier
      string and its separator. */
  function Offset(ks: seq<string>, sep: string, i: nat): (at: nat)
    requires i <= |ks|
  {
    if i == 0 then 0 else |ks[0]| + |sep| + Offset(ks[1..], sep, i - 1)
  }

  lemma SliceOfConcat(p: string, q: string, lo: nat, hi: nat)
    requires lo <= hi <= |q|
    ensures (p + q)[|p| + lo .. |p| + hi] == q[lo..hi]
  {
  }

  /** `Join` lists every string, in order, each followed by `sep` except the
      last, which ends the text. */
  lemma {:induction false} JoinListsInOrder(ks: seq<string>, sep: string, i: nat)
    requires i < |ks|
    ensures Offset(ks, sep, i) + |ks[i]| <= |Join(ks, sep)|
    ensures Join(ks, sep)[Offset(ks, sep, i) .. Offset(ks, sep, i) + |ks[i]|] == ks[i]
    ensures i + 1 < |ks| ==>
              Offset(ks, sep, i + 1) == Offset(ks, sep, i) + |ks[i]| + |sep| <= |Join(ks, sep)|
    ensures i + 1 < |ks| ==>
              Join(ks, sep)[Offset(ks, sep, i) + |ks[i]| .. Offset(ks, sep, i + 1)] == sep
    ensures i + 1 == |ks| ==> Offset(ks, sep, i) + |ks[i]| == |Join(ks, sep)|
  {
    if |ks| == 1 {
      assert Join(ks, sep) == ks[0];
    } else {
      var rest := ks[1..];
      var head := ks[0] + sep;
      assert Join(ks, sep) == head + Join(rest, sep);
      if i == 0 {
        assert Offset(ks, sep, 1) == |head|;
        assert (head + Join(rest, sep))[..|ks[0]|] == ks[0];
        assert (head + Join(rest, sep))[|ks[0]| .. |head|] == sep;
      } else {
        JoinListsInOrder(rest, sep, i - 1);
        assert rest[i - 1] == ks[i];
        var o := Offset(rest, sep, i - 1);
        assert Offset(ks, sep, i) == |head| + o;
        SliceOfConcat(head, Join(rest, sep), o, o + |ks[i]|);
        if i + 1 < |ks| {
          assert Offset(ks, sep, i + 1) == |head| + Offset(rest, sep, i);
          SliceOfConcat(head, Join(rest, sep), o + |ks[i]|, Offset(rest, sep, i));
        }
      }
    }
  }

  /** `s.replace(pat, '')`: scans left to right and drops every
      non-overlapping occurrence of `pat`. */
  function RemoveAll(s: string, pat: string): (rest: string)
    requires |pat| > 0
    decreases |s|
  {
    if |s| < |pat| then s
    else if s[..|pat|] == pat then RemoveAll(s[|pat|..], pat)
    else [s[0]] + RemoveAll(s[1..], pat)
  }

  /** Removing a word from a text that holds it only as its suffix leaves the
      text before the suffix. */
  lemma {:induction false} RemoveAllDropsSuffix(s: string, pat: string)
    requires |pat| > 0
    requires pat[0] !in s
    ensures RemoveAll(s + pat, pat) == s
    decreases |s|
  {
    if s == [] {
      assert s + pat == pat;
      assert RemoveAll(pat[|pat|..], pat) == [];
    } else {
      assert (s + pat)[..|pat|][0] == s[0];
      assert pat[0] !in s[1..];
      assert (s + pat)[1..] == s[1..] + pat;
      RemoveAllDropsSuffix(s[1..], pat);
    }
  }

  /** The text before the first `c`, or all of `s` when `c` does not occur. */
  function PrefixBefore(s: string, c: char): (prefix: string)
  {
    if s == [] || s[0] == c then [] else [s[0]] + PrefixBefore(s[1..], c)
  }

  /** Cutting at the first `c` recovers the part written before it. */
  lemma {:induction false} PrefixBeforeFirst(x: string, c: char, y: string)
    requires c !in x
    ensures PrefixBefore(x + [c] + y, c) == x
  {
    if x != [] {
      assert (x + [c] + y)[1..] == x[1..] + [c] + y;
      PrefixBeforeFirst(x[1..], c, y);
    }
  }
}
