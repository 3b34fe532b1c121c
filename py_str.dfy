/** The two Python string operations the handler relies on, specialised to the
    separator '/': `'/'.join(parts)` and `s.rsplit('/')` (no `maxsplit`), plus
    `s.rsplit('/')[-1]`, the final path segment of a storage key. */
module PyStr {

  const Sep: char := '/'

  /** `'/'.join(parts)`: the parts with one separator between neighbours. */
  function Join(parts: seq<string>): string
  {
    if |parts| == 0 then ""
    else if |parts| == 1 then parts[0]
    else Join(parts[..|parts| - 1]) + [Sep] + parts[|parts| - 1]
  }

  /** True when no part holds the separator: the shape of every split result. */
  predicate SlashFree(parts: seq<string>)
  {
    forall i :: 0 <= i < |parts| ==> Sep !in parts[i]
  }

  /** `s.rsplit('/')`: the maximal separator-free pieces of `s`, scanned from the
      right. Python returns `['']` for the empty string and an empty last piece
      when `s` ends with the separator. */
  function RSplit(s: string): (parts: seq<string>)
    ensures |parts| >= 1
    ensures SlashFree(parts)
    ensures Join(parts) == s
  {
    if s == [] then [""]
    else
      var init, c := s[..|s| - 1], s[|s| - 1];
      assert s == init + [c];
      var ps := RSplit(init);
      if c == Sep then
        assert Join(ps + [""]) == Join(ps) + [Sep] + "" by {
          assert (ps + [""])[..|ps|] == ps;
        }
        ps + [""]
      else
        var n := |ps|;
        var r := ps[..n - 1] + [ps[n - 1] + [c]];
        assert r[..n - 1] == ps[..n - 1];
        r
  }

  /** `s.rsplit('/')[-1]`: the text after the last separator, or all of `s`
      when it has none. */
  function LastSegment(s: string): (name: string)
    ensures Sep !in name
    ensures |name| <= |s| && s[|s| - |name|..] == name
    ensures |name| < |s| ==> s[|s| - |name| - 1] == Sep
  {
    var parts := RSplit(s);
    var n := |parts|;
    if n >= 2 then
      assert s == Join(parts[..n - 1]) + [Sep] + parts[n - 1];
      parts[n - 1]
    else
      parts[0]
  }

  /** Two splits at a separator whose right-hand sides hold no separator are the
      same split: the last separator of a string is unique. */
  lemma {:induction false} LastSepUnique(x: string, a: string, y: string, b: string)
    requires x + [Sep] + a == y + [Sep] + b
    requires Sep !in a && Sep !in b
    ensures a == b && x == y
  {
    var s := x + [Sep] + a;
    assert s[|x|] == Sep && s[|y|] == Sep;
    assert forall i :: |x| < i < |s| ==> s[i] == a[i - |x| - 1];
    assert forall i :: |y| < i < |s| ==> s[i] == b[i - |y| - 1];
    assert |x| == |y|;
    assert x == s[..|x|] && y == s[..|y|];
    assert a == s[|x| + 1..] && b == s[|y| + 1..];
  }

  /** A join of separator-free parts contains a separator exactly when it joins
      two or more parts. */
  lemma {:induction false} JoinHasSep(parts: seq<string>)
    requires SlashFree(parts)
    ensures Sep in Join(parts) <==> |parts| >= 2
  {
    if |parts| >= 2 {
      var init := parts[..|parts| - 1];
      assert Join(parts)[|Join(init)|] == Sep;
    }
  }

  /** Joining is injective on non-empty lists of separator-free parts. */
  lemma {:induction false} JoinInjective(ps: seq<string>, qs: seq<string>)
    requires |ps| >= 1 && |qs| >= 1
    requires SlashFree(ps) && SlashFree(qs)
    requires Join(ps) == Join(qs)
    ensures ps == qs
    decreases |ps|
  {
    JoinHasSep(ps);
    JoinHasSep(qs);
    if |ps| >= 2 {
      var ip, iq := ps[..|ps| - 1], qs[..|qs| - 1];
      assert SlashFree(ip) && SlashFree(iq);
      LastSepUnique(Join(ip), ps[|ps| - 1], Join(iq), qs[|qs| - 1]);
      JoinInjective(ip, iq);
      assert ps == ip + [ps[|ps| - 1]] && qs == iq + [qs[|qs| - 1]];
    }
  }

  /** Round trip: splitting a join of separator-free parts gives the parts back. */
  lemma RSplitJoin(parts: seq<string>)
    requires |parts| >= 1 && SlashFree(parts)
    ensures RSplit(Join(parts)) == parts
  {
    JoinInjective(RSplit(Join(parts)), parts);
  }

  /** `s.count('/')`. */
  function CountSep(s: string): nat
  {
    if s == [] then 0
    else CountSep(s[..|s| - 1]) + (if s[|s| - 1] == Sep then 1 else 0)
  }

  /** The number of pieces is one more than the number of separators. */
  lemma {:induction false} RSplitLength(s: string)
    ensures |RSplit(s)| == CountSep(s) + 1
  {
    if s != [] {
      RSplitLength(s[..|s| - 1]);
    }
  }

  /** Joining `n` separator-free parts puts exactly `n - 1` separators into
      the result. */
  lemma JoinCountSep(parts: seq<string>)
    requires |parts| >= 1 && SlashFree(parts)
    ensures CountSep(Join(parts)) == |parts| - 1
  {
    RSplitJoin(parts);
    RSplitLength(Join(parts));
  }

  /** The contract of LastSegment pins it down: any split of `s` into a prefix
      that is empty or ends with the separator, followed by a separator-free
      name, has LastSegment(s) as its name. */
  lemma LastSegmentUnique(s: string, prefix: string, name: string)
    requires s == prefix + name
    requires prefix == [] || prefix[|prefix| - 1] == Sep
    requires Sep !in name
    ensures LastSegment(s) == name
  {
    var last := LastSegment(s);
    assert forall i :: |prefix| <= i < |s| ==> s[i] == name[i - |prefix|] != Sep;
    assert forall i :: |s| - |last| <= i < |s| ==> s[i] == last[i - (|s| - |last|)] != Sep;
    assert prefix != [] ==> s[|prefix| - 1] == Sep;
    assert |last| == |name|;
  }

  /** A key without a separator is its own last segment. */
  lemma LastSegmentNoSep(s: string)
    requires Sep !in s
    ensures LastSegment(s) == s
  {
    LastSegmentUnique(s, "", s);
  }

  /** A key ending in the separator has an empty last segment. */
  lemma LastSegmentTrailingSep(s: string)
    requires |s| > 0 && s[|s| - 1] == Sep
    ensures LastSegment(s) == ""
  {
    LastSegmentUnique(s, s, "");
  }
}
