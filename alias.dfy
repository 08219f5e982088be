/**
  The alias rewrite at the end of `reset_migration_for_file`
  (tool/src/main.rs:167-171): the first match of the regular expression
  `use .* as prev;` in the unparsed file is replaced by `use {version} as prev;`.

  The one pattern is modelled directly. A match is `use ` at some position, then
  any run of characters other than a line feed (`.` does not match `\n`),
  then ` as prev;`. Like the regex engine, the replacement takes the leftmost
  start and, the star being greedy, the longest match from that start.
*/
module AliasRewrite {
  import opened Wrappers

  const Head: string := "use "
  const Tail: string := " as prev;"

  /** The word `w` stands in `t` from position `i` on. */
  predicate Occurs(t: string, w: string, i: int) {
    0 <= i && i + |w| <= |t| && forall k :: 0 <= k < |w| ==> t[i + k] == w[k]
  }

  /** `use ` starts at `i`. */
  predicate HeadAt(t: string, i: int) {
    Occurs(t, Head, i)
  }

  /** ` as prev;` starts at `j`. */
  predicate TailAt(t: string, j: int) {
    Occurs(t, Tail, j)
  }

  /** No line feed in `t[a..b]`. */
  predicate OneLine(t: string, a: int, b: int)
    requires 0 <= a && b <= |t|
  {
    forall k :: a <= k < b ==> t[k] != '\n'
  }

  /** The pattern matches `t[i..j + |Tail|]`, with `.*` covering `t[i + |Head|..j]`. */
  predicate MatchesAt(t: string, i: int, j: int) {
    && HeadAt(t, i)
    && i + |Head| <= j
    && TailAt(t, j)
    && OneLine(t, i + |Head|, j)
  }

  /** The match the rewrite replaces: the leftmost one, and the longest from that start. */
  ghost predicate FirstMatch(t: string, i: int, j: int) {
    && MatchesAt(t, i, j)
    && (forall i', j' :: i' < i ==> !MatchesAt(t, i', j'))
    && (forall j' :: j < j' ==> !MatchesAt(t, i, j'))
  }

  // ---------------------------------------------------------------------
  // Finding the match
  // ---------------------------------------------------------------------

  /** The end of the line that position `k` is on: the next line feed, or the end of the text. */
  function LineEnd(t: string, k: nat): (r: nat)
    requires k <= |t|
    ensures k <= r <= |t|
    ensures OneLine(t, k, r)
    ensures r < |t| ==> t[r] == '\n'
    decreases |t| - k
  {
    if k == |t| || t[k] == '\n' then k else LineEnd(t, k + 1)
  }

  /** The last position `j` in `[lo, hi - |Tail|]` where ` as prev;` starts. */
  function LastTail(t: string, lo: nat, hi: nat): (r: Option<nat>)
    requires hi <= |t|
    ensures r.Some? ==> lo <= r.value && r.value + |Tail| <= hi && TailAt(t, r.value)
    ensures forall j :: lo <= j && j + |Tail| <= hi && TailAt(t, j) ==> r.Some? && j <= r.value
    decreases hi
  {
    if hi < lo + |Tail| then None
    else if TailAt(t, hi - |Tail|) then Some(hi - |Tail|)
    else LastTail(t, lo, hi - 1)
  }

  /** A match cannot run past the end of the line it starts on. */
  lemma MatchStaysOnLine(t: string, i: nat, j: nat)
    requires MatchesAt(t, i, j)
    ensures j + |Tail| <= LineEnd(t, i + |Head|)
  {
    assert forall k :: j <= k < j + |Tail| ==> t[k] == Tail[k - j];
  }

  /** The longest match that starts at `i`, if any. */
  function MatchEnd(t: string, i: nat): (r: Option<nat>)
    ensures r.Some? ==> MatchesAt(t, i, r.value)
    ensures forall j :: MatchesAt(t, i, j) ==> r.Some? && j <= r.value
  {
    if !HeadAt(t, i) then None
    else
      var e := LineEnd(t, i + |Head|);
      var r := LastTail(t, i + |Head|, e);
      forall j | MatchesAt(t, i, j)
        ensures r.Some? && j <= r.value
      {
        MatchStaysOnLine(t, i, j);
      }
      r
  }

  /** The leftmost match starting at or after `k`, longest from its start. */
  function FindFrom(t: string, k: nat): (r: Option<(nat, nat)>)
    requires k <= |t|
    ensures r.Some? ==> k <= r.value.0 && MatchesAt(t, r.value.0, r.value.1)
    ensures r.Some? ==> forall i, j :: k <= i < r.value.0 ==> !MatchesAt(t, i, j)
    ensures r.Some? ==> forall j :: r.value.1 < j ==> !MatchesAt(t, r.value.0, j)
    ensures r.None? ==> forall i, j :: k <= i ==> !MatchesAt(t, i, j)
    decreases |t| - k
  {
    if k == |t| then None
    else
      match MatchEnd(t, k)
      case Some(j) => Some((k, j))
      case None => FindFrom(t, k + 1)
  }

  /** The match the regex engine reports: leftmost-first, greedy. */
  function FindAlias(t: string): (r: Option<(nat, nat)>)
    ensures r.Some? ==> FirstMatch(t, r.value.0, r.value.1)
    ensures r.None? ==> forall i, j :: !MatchesAt(t, i, j)
  {
    FindFrom(t, 0)
  }

  /** There is only one first match. */
  lemma FirstMatchUnique(t: string, i: nat, j: nat)
    requires FirstMatch(t, i, j)
    ensures FindAlias(t) == Some((i, j))
  {
    var r := FindAlias(t);
    assert r.Some?;
    var (a, b) := r.value;
    assert !(a < i) && !(i < a);
    assert !(b < j) && !(j < b);
  }

  // ---------------------------------------------------------------------
  // The rewrite
  // ---------------------------------------------------------------------

  /** The text with `t[i..j + |Tail|]` replaced by `use {version} as prev;`. */
  function Splice(t: string, i: nat, j: nat, version: string): string
    requires i <= j && j + |Tail| <= |t|
  {
    t[..i] + Head + version + Tail + t[j + |Tail|..]
  }

  /**
    `Regex::new(r"use .* as prev;").replace(code, format!("use {} as prev;", version))`.
    The replacement is taken literally, which it is for a version without `$`.
  */
  function ReplaceAlias(code: string, version: string): (r: string)
    requires '$' !in version
    // text without a match is returned unchanged
    ensures (forall i, j :: !MatchesAt(code, i, j)) ==> r == code
    // only the first match is replaced; everything around it is kept
    ensures forall i, j :: FirstMatch(code, i, j) ==> r == Splice(code, i, j, version)
  {
    match FindAlias(code)
    case None => code
    case Some((i, j)) =>
      forall i', j' | FirstMatch(code, i', j')
        ensures i' == i && j' == j
      {
        FirstMatchUnique(code, i', j');
      }
      Splice(code, i, j, version)
  }

  // ---------------------------------------------------------------------
  // Properties
  // ---------------------------------------------------------------------

  /** Where each character of a splice comes from. */
  lemma SpliceAt(t: string, i: nat, j: nat, version: string)
    requires i <= j && j + |Tail| <= |t|
    ensures var u, q := Splice(t, i, j, version), i + |Head| + |version|;
      && |u| == q + |Tail| + |t| - j - |Tail|
      && (forall k :: 0 <= k < i ==> u[k] == t[k])
      && (forall k :: 0 <= k < |Head| ==> u[i + k] == Head[k])
      && (forall k :: 0 <= k < |version| ==> u[i + |Head| + k] == version[k])
      && (forall k :: 0 <= k < |Tail| ==> u[q + k] == Tail[k])
      && (forall k :: q + |Tail| <= k < |u| ==> u[k] == t[k - q + j])
  {
  }

  /** One character of an occurrence. */
  lemma CharOf(t: string, w: string, i: int, d: int)
    requires Occurs(t, w, i)
    ensures 0 <= d < |w| ==> t[i + d] == w[d]
  {
  }

  /** The letters that keep occurrences of the two words apart. */
  lemma Letters()
    ensures forall d :: 0 <= d < |Tail| ==> Tail[d] != 'u'
    ensures forall d :: 0 < d < |Tail| - 1 ==> Tail[d] != ' ' || Tail[d + 1] != 'a'
    ensures Tail[0] == ' ' && Tail[1] == 'a' && Tail[|Tail| - 1] != ' '
    ensures forall d :: 0 < d < |Head| ==> Head[d] != 'u'
    ensures Head[0] == 'u'
  {
  }

  /** Two occurrences of ` as prev;` never overlap. */
  lemma TailsApart(t: string, p: int, q: int)
    requires TailAt(t, p) && TailAt(t, q) && p < q
    ensures p + |Tail| <= q
  {
    Letters();
    CharOf(t, Tail, q, 0);
    CharOf(t, Tail, q, 1);
    CharOf(t, Tail, p, q - p);
    CharOf(t, Tail, p, q - p + 1);
  }

  /** Two occurrences of `use ` never overlap. */
  lemma HeadsApart(t: string, p: int, q: int)
    requires HeadAt(t, p) && HeadAt(t, q) && p < q
    ensures p + |Head| <= q
  {
    Letters();
    CharOf(t, Head, q, 0);
    CharOf(t, Head, p, q - p);
  }

  /** An occurrence of ` as prev;` does not contain the first letter of a `use `. */
  lemma TailClearOfHead(t: string, j: int, i: int)
    requires TailAt(t, j) && HeadAt(t, i)
    ensures i <= j || j + |Tail| <= i
  {
    Letters();
    CharOf(t, Head, i, 0);
    CharOf(t, Tail, j, i - j);
  }

  /** The rewritten text carries the new alias where the old one started. */
  lemma SpliceMatches(t: string, i: nat, j: nat, version: string)
    requires i <= j && j + |Tail| <= |t|
    requires '\n' !in version
    ensures MatchesAt(Splice(t, i, j, version), i, i + |Head| + |version|)
  {
    SpliceAt(t, i, j, version);
    var u := Splice(t, i, j, version);
    assert forall k :: i + |Head| <= k < i + |Head| + |version| ==> u[k] == version[k - i - |Head|];
  }

  /** A match from the inserted `use ` that runs past the inserted ` as prev;` runs as far in the old text. */
  lemma SpliceLonger(t: string, i: nat, j: nat, version: string, j': int)
    requires MatchesAt(t, i, j) && '\n' !in version
    requires i + |Head| + |version| < j'
    ensures MatchesAt(Splice(t, i, j, version), i, j') ==> MatchesAt(t, i, j' - (i + |Head| + |version|) + j)
  {
    var u := Splice(t, i, j, version);
    var q := i + |Head| + |version|;
    SpliceAt(t, i, j, version);
    SpliceMatches(t, i, j, version);
    if MatchesAt(u, i, j') {
      TailsApart(u, q, j');
      var j'' := j' - q + j;
      assert forall k :: j'' <= k < j'' + |Tail| ==> t[k] == u[k - j'' + j'];
      assert TailAt(t, j'');
      assert forall k :: j + |Tail| <= k < j'' ==> t[k] == u[k - j + q];
      assert forall k :: j <= k < j + |Tail| ==> t[k] == Tail[k - j];
      assert OneLine(t, i + |Head|, j'');
    }
  }

  /** A match that starts before the inserted `use ` is a match of the old text from the same start. */
  lemma SpliceEarlier(t: string, i: nat, j: nat, version: string, i': int, j': int)
    requires MatchesAt(t, i, j) && '\n' !in version
    requires i' < i
    ensures MatchesAt(Splice(t, i, j, version), i', j') ==> MatchesAt(t, i', j') || MatchesAt(t, i', j)
  {
    var u := Splice(t, i, j, version);
    SpliceAt(t, i, j, version);
    SpliceMatches(t, i, j, version);
    if MatchesAt(u, i', j') {
      HeadsApart(u, i', i);
      TailClearOfHead(u, j', i);
      assert HeadAt(t, i');
      if j' + |Tail| <= i {
        // the whole match lies in the untouched prefix
        assert TailAt(t, j');
        assert OneLine(t, i' + |Head|, j');
      } else {
        // the line of `i'` runs on to the old match
        assert forall k :: i <= k < i + |Head| ==> t[k] == Head[k - i];
        assert OneLine(t, i' + |Head|, j);
      }
    }
  }

  /** After a rewrite, the first match of the pattern is the inserted alias, whole. */
  lemma SpliceFirstMatch(code: string, i: nat, j: nat, version: string)
    requires FirstMatch(code, i, j) && '\n' !in version
    ensures FirstMatch(Splice(code, i, j, version), i, i + |Head| + |version|)
  {
    var u := Splice(code, i, j, version);
    var q := i + |Head| + |version|;
    SpliceMatches(code, i, j, version);
    forall j' | q < j'
      ensures !MatchesAt(u, i, j')
    {
      SpliceLonger(code, i, j, version, j');
    }
    forall i', j' | i' < i
      ensures !MatchesAt(u, i', j')
    {
      SpliceEarlier(code, i, j, version, i', j');
    }
  }

  /** What the first alias imports as `prev`: the text the `.*` matched. */
  function AliasOf(code: string): Option<string> {
    match FindAlias(code)
    case None => None
    case Some((i, j)) => Some(code[i + |Head|..j])
  }

  lemma AliasOfSplice(code: string, i: nat, j: nat, version: string)
    requires FirstMatch(code, i, j) && '\n' !in version
    ensures AliasOf(Splice(code, i, j, version)) == Some(version)
  {
    var u := Splice(code, i, j, version);
    var q := i + |Head| + |version|;
    SpliceFirstMatch(code, i, j, version);
    FirstMatchUnique(u, i, q);
    assert u[i + |Head|..q] == version;
  }

  /** The rewrite installs the version: reading the alias back gives it, and a file without an alias keeps none. */
  lemma {:induction false} AliasRoundTrip(code: string, version: string)
    requires '$' !in version && '\n' !in version
    ensures AliasOf(ReplaceAlias(code, version)) == if AliasOf(code).Some? then Some(version) else None
  {
    match FindAlias(code)
    case None =>
    case Some((i, j)) =>
      assert ReplaceAlias(code, version) == Splice(code, i, j, version);
      AliasOfSplice(code, i, j, version);
  }

  /**
    Rewriting twice is rewriting once with the second version: after the
    first rewrite the first match is the inserted alias, whole. Promotions
    in a row therefore leave exactly the newest alias.
  */
  lemma {:induction false} ReplaceAliasTwice(code: string, v1: string, v2: string)
    requires '$' !in v1 && '\n' !in v1 && '$' !in v2
    ensures ReplaceAlias(ReplaceAlias(code, v1), v2) == ReplaceAlias(code, v2)
  {
    match FindAlias(code)
    case None =>
    case Some((i, j)) =>
      var u := Splice(code, i, j, v1);
      var q := i + |Head| + |v1|;
      SpliceFirstMatch(code, i, j, v1);
      assert u[..i] == code[..i];
      assert u[q + |Tail|..] == code[j + |Tail|..];
      assert Splice(u, i, q, v2) == Splice(code, i, j, v2);
  }
}
