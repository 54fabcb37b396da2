/**
 * The pure helpers of the confirmation card (src/components/chat/ConfirmationCard.tsx):
 * reading a room proposal out of an emoji-marked chat message, recognising
 * such a message, choosing an equipment icon, and shortening the date and
 * the time for display.
 *
 * The six regular expressions of the parser are written as patterns over
 * four kinds of nodes and run by a backtracking matcher that tries the
 * alternatives in the order a JavaScript engine does (greedy `\s*` longest
 * first, lazy `.*?` shortest first, leftmost start position first). The
 * matcher is proved sound and complete against `Derives`, a declarative
 * description of what it means for a pattern to match.
 */
module Proposal {
  import opened Strings

  // ---------------------------------------------------------------- `**` removal

  /** No occurrence of the substring "**". */
  predicate NoDoubleStar(s: string) {
    forall i :: 0 <= i < |s| - 1 ==> !(s[i] == '*' && s[i + 1] == '*')
  }

  /** That is, `s.includes("**")` is false. */
  lemma NoDoubleStarIff(s: string)
    ensures NoDoubleStar(s) <==> !Contains(s, "**")
  {
    ContainsIff(s, "**");
    if i :| OccursAt(s, "**", i) {
      assert s[i..i + 2][0] == s[i] && s[i..i + 2][1] == s[i + 1];
    }
    if i :| 0 <= i < |s| - 1 && s[i] == '*' && s[i + 1] == '*' {
      assert s[i..i + 2] == "**";
      assert OccursAt(s, "**", i);
    }
  }

  // `text.replace` of every "**" by nothing: scanning left to right, each "**" is removed.
  function StripDoubleStars(s: string): (r: string)
    ensures |r| <= |s|
    ensures forall c :: c in r ==> c in s
    ensures s != [] && s[0] != '*' ==> r != [] && r[0] == s[0]
    ensures NoDoubleStar(r)
    decreases |s|
  {
    if |s| >= 2 && s[0] == '*' && s[1] == '*' then StripDoubleStars(s[2..])
    else if s == [] then []
    else
      var t := StripDoubleStars(s[1..]);
      var r := [s[0]] + t;
      assert |r| >= 2 && r[0] == '*' ==> r[1] != '*' by {
        if |r| >= 2 && r[0] == '*' {
          assert s[1..][0] == s[1] != '*';
        }
      }
      assert forall i :: 1 <= i < |r| - 1 ==> r[i] == t[i - 1] && r[i + 1] == t[i];
      r
  }

  /** A text without "**" is left as it is. */
  lemma {:induction false} StripWithoutDoubleStars(s: string)
    requires NoDoubleStar(s)
    ensures StripDoubleStars(s) == s
    decreases |s|
  {
    if s != [] {
      assert !(|s| >= 2 && s[0] == '*' && s[1] == '*');
      NoDoubleStarSlice(s, 1, |s|);
      StripWithoutDoubleStars(s[1..]);
      assert [s[0]] + s[1..] == s;
    }
  }

  /** Removing "**" a second time changes nothing. */
  lemma StripIdempotent(s: string)
    ensures StripDoubleStars(StripDoubleStars(s)) == StripDoubleStars(s)
  {
    StripWithoutDoubleStars(StripDoubleStars(s));
  }

  /** Every piece of a text without "**" is free of it too. */
  lemma NoDoubleStarSlice(s: string, a: int, b: int)
    requires NoDoubleStar(s) && 0 <= a <= b <= |s|
    ensures NoDoubleStar(s[a..b])
  {
    assert forall i :: 0 <= i < b - a ==> s[a..b][i] == s[a + i];
  }

  lemma NoDoubleStarTrim(s: string)
    requires NoDoubleStar(s)
    ensures NoDoubleStar(Trim(s))
  {
    NoDoubleStarSlice(s, TrimOffset(s), TrimOffset(s) + |Trim(s)|);
  }

  lemma NoDoubleStarTrimmedSlice(s: string, a: int, b: int)
    requires 0 <= a <= b <= |s|
    ensures NoDoubleStar(s) ==> NoDoubleStar(Trim(s[a..b]))
  {
    if NoDoubleStar(s) {
      NoDoubleStarSlice(s, a, b);
      NoDoubleStarTrim(s[a..b]);
    }
  }

  lemma {:induction false} NoDoubleStarSplit(s: string, sep: char)
    requires NoDoubleStar(s)
    ensures forall k :: 0 <= k < |Split(s, sep)| ==> NoDoubleStar(Split(s, sep)[k])
    decreases |s|
  {
    if s != [] {
      NoDoubleStarSlice(s, 1, |s|);
      NoDoubleStarSplit(s[1..], sep);
      if s[0] != sep {
        var rest := Split(s[1..], sep);
        assert [s[0]] + rest[0] == s[..1 + |rest[0]|];
        NoDoubleStarSlice(s, 0, 1 + |rest[0]|);
        assert Split(s, sep)[1..] == rest[1..];
      }
    }
  }

  // ---------------------------------------------------------------- patterns

  /** One element of a regular expression: a literal, `\s*`, the capturing
      group `(.*?)`, or the final `(\n|$)`. */
  datatype Node = Lit(text: string) | Spaces | Lazy | LineEnd

  /** The captured group: the text between the two indices. */
  type Span = (int, int)

  predicate NoLineBreak(t: string) {
    forall i :: 0 <= i < |t| ==> !IsLineTerminator(t[i])
  }

  predicate ValidSpan(s: string, c: Span) {
    0 <= c.0 <= c.1 <= |s| && NoLineBreak(s[c.0..c.1])
  }

  /** Pattern `p` matches `s` from index `pos`, and the capture it leaves is `r`
      (starting with capture `cap`). Each `\s*` may take any run of white
      space, each `.*?` any run of characters other than line terminators. */
  ghost predicate Derives(s: string, pos: int, p: seq<Node>, cap: Span, r: Span)
    decreases |p|
  {
    0 <= pos <= |s| &&
    if p == [] then r == cap
    else match p[0]
      case Lit(w) => OccursAt(s, w, pos) && Derives(s, pos + |w|, p[1..], cap, r)
      case Spaces =>
        exists k :: pos <= k <= |s| && AllSpaces(s[pos..k]) && Derives(s, k, p[1..], cap, r)
      case Lazy =>
        exists e :: pos <= e <= |s| && NoLineBreak(s[pos..e]) && Derives(s, e, p[1..], (pos, e), r)
      case LineEnd =>
        (pos < |s| && s[pos] == '\n' && Derives(s, pos + 1, p[1..], cap, r))
        || (pos == |s| && Derives(s, pos, p[1..], cap, r))
  }

  /** The end of the run of white space that starts at `pos`. */
  function SpaceRunEnd(s: string, pos: nat): (k: nat)
    requires pos <= |s|
    ensures pos <= k <= |s| && AllSpaces(s[pos..k])
    ensures k == |s| || !IsSpace(s[k])
    decreases |s| - pos
  {
    if pos < |s| && IsSpace(s[pos]) then
      var k := SpaceRunEnd(s, pos + 1);
      assert s[pos..k] == [s[pos]] + s[pos + 1..k];
      k
    else pos
  }

  /** The backtracking matcher: the capture of the first way `p` matches from `pos`. */
  function MatchFrom(s: string, pos: nat, p: seq<Node>, cap: Span): (r: Option<Span>)
    requires pos <= |s| && ValidSpan(s, cap)
    ensures r.Some? ==> ValidSpan(s, r.value) && Derives(s, pos, p, cap, r.value)
    decreases |p|, 2, 0
  {
    if p == [] then Some(cap)
    else match p[0]
      case Lit(w) =>
        if OccursAt(s, w, pos) then MatchFrom(s, pos + |w|, p[1..], cap) else None
      case Spaces =>
        assert [Spaces] + p[1..] == p;
        SpacesFrom(s, pos, SpaceRunEnd(s, pos), p[1..], cap)
      case Lazy =>
        assert [Lazy] + p[1..] == p;
        assert s[pos..pos] == [];
        LazyFrom(s, pos, pos, p[1..])
      case LineEnd =>
        if pos < |s| && s[pos] == '\n' then MatchFrom(s, pos + 1, p[1..], cap)
        else if pos == |s| then MatchFrom(s, pos, p[1..], cap)
        else None
  }

  /** `\s*` followed by `rest`: the run `s[pos..k]` first, then shorter runs. */
  function SpacesFrom(s: string, pos: nat, k: nat, rest: seq<Node>, cap: Span): (r: Option<Span>)
    requires pos <= k <= |s| && AllSpaces(s[pos..k]) && ValidSpan(s, cap)
    ensures r.Some? ==> ValidSpan(s, r.value) && Derives(s, pos, [Spaces] + rest, cap, r.value)
    decreases |rest| + 1, 1, k
  {
    assert ([Spaces] + rest)[0] == Spaces && ([Spaces] + rest)[1..] == rest;
    match MatchFrom(s, k, rest, cap)
    case Some(c) => Some(c)
    case None =>
      if k == pos then None
      else
        assert s[pos..k - 1] == s[pos..k][..k - 1 - pos];
        SpacesFrom(s, pos, k - 1, rest, cap)
  }

  /** `(.*?)` followed by `rest`: the group `s[start..e]` first, then longer ones. */
  function LazyFrom(s: string, start: nat, e: nat, rest: seq<Node>): (r: Option<Span>)
    requires start <= e <= |s| && NoLineBreak(s[start..e])
    ensures r.Some? ==> ValidSpan(s, r.value) && forall cap :: Derives(s, start, [Lazy] + rest, cap, r.value)
    decreases |rest| + 1, 1, |s| - e
  {
    assert ([Lazy] + rest)[0] == Lazy && ([Lazy] + rest)[1..] == rest;
    match MatchFrom(s, e, rest, (start, e))
    case Some(c) => Some(c)
    case None =>
      if e < |s| && !IsLineTerminator(s[e]) then
        assert s[start..e + 1] == s[start..e] + [s[e]];
        LazyFrom(s, start, e + 1, rest)
      else None
  }

  /** `String.prototype.match` without the global flag: the capture of the
      match at the leftmost start position from `i` on. */
  function FirstMatchFrom(s: string, i: nat, p: seq<Node>): (r: Option<Span>)
    requires i <= |s|
    ensures r.Some? ==> ValidSpan(s, r.value) && exists j :: i <= j <= |s| && Derives(s, j, p, (0, 0), r.value)
    decreases |s| - i
  {
    assert ValidSpan(s, (0, 0)) by { assert s[0..0] == []; }
    match MatchFrom(s, i, p, (0, 0))
    case Some(c) => Some(c)
    case None => if i == |s| then None else FirstMatchFrom(s, i + 1, p)
  }

  /** The matcher misses no match: whenever the pattern derives from `pos`, it succeeds. */
  lemma {:induction false} MatchComplete(s: string, pos: nat, p: seq<Node>, cap: Span, r: Span)
    requires pos <= |s| && ValidSpan(s, cap) && Derives(s, pos, p, cap, r)
    ensures MatchFrom(s, pos, p, cap).Some?
    decreases |p|, 2, 0
  {
    if p != [] {
      match p[0]
      case Lit(w) =>
        MatchComplete(s, pos + |w|, p[1..], cap, r);
      case Spaces =>
        SpacesNodeComplete(s, pos, p, cap, r);
      case Lazy =>
        LazyNodeComplete(s, pos, p, cap, r);
      case LineEnd =>
        if pos < |s| && s[pos] == '\n' {
          MatchComplete(s, pos + 1, p[1..], cap, r);
        } else {
          MatchComplete(s, pos, p[1..], cap, r);
        }
    }
  }

  lemma {:induction false} SpacesNodeComplete(s: string, pos: nat, p: seq<Node>, cap: Span, r: Span)
    requires pos <= |s| && ValidSpan(s, cap) && p != [] && p[0] == Spaces && Derives(s, pos, p, cap, r)
    ensures MatchFrom(s, pos, p, cap).Some?
    decreases |p|, 1, |s| + 1
  {
    var k :| pos <= k <= |s| && AllSpaces(s[pos..k]) && Derives(s, k, p[1..], cap, r);
    SpacesComplete(s, pos, SpaceRunEnd(s, pos), p[1..], cap, k, r);
  }

  lemma {:induction false} LazyNodeComplete(s: string, pos: nat, p: seq<Node>, cap: Span, r: Span)
    requires pos <= |s| && ValidSpan(s, cap) && p != [] && p[0] == Lazy && Derives(s, pos, p, cap, r)
    ensures MatchFrom(s, pos, p, cap).Some?
    decreases |p|, 1, |s| + 1
  {
    var e :| pos <= e <= |s| && NoLineBreak(s[pos..e]) && Derives(s, e, p[1..], (pos, e), r);
    assert s[pos..pos] == [];
    LazyComplete(s, pos, pos, p[1..], e, r);
  }

  lemma {:induction false} SpacesComplete(s: string, pos: nat, m: nat, rest: seq<Node>, cap: Span, k: nat, r: Span)
    requires pos <= k <= m <= |s| && AllSpaces(s[pos..m]) && ValidSpan(s, cap)
    requires Derives(s, k, rest, cap, r)
    ensures SpacesFrom(s, pos, m, rest, cap).Some?
    decreases |rest| + 1, 1, m
  {
    if MatchFrom(s, m, rest, cap).None? {
      if m == k {
        MatchComplete(s, k, rest, cap, r);
      } else {
        assert s[pos..m - 1] == s[pos..m][..m - 1 - pos];
        SpacesComplete(s, pos, m - 1, rest, cap, k, r);
      }
    }
  }

  lemma {:induction false} LazyComplete(s: string, start: nat, e: nat, rest: seq<Node>, target: nat, r: Span)
    requires start <= e <= target <= |s| && NoLineBreak(s[start..target]) && NoLineBreak(s[start..e])
    requires Derives(s, target, rest, (start, target), r)
    ensures LazyFrom(s, start, e, rest).Some?
    decreases |rest| + 1, 1, |s| - e
  {
    assert s[start..e] == s[start..target][..e - start];
    if MatchFrom(s, e, rest, (start, e)).None? {
      if e == target {
        MatchComplete(s, target, rest, (start, target), r);
      } else {
        assert s[e] == s[start..target][e - start];
        assert s[start..e + 1] == s[start..e] + [s[e]];
        LazyComplete(s, start, e + 1, rest, target, r);
      }
    }
  }

  /** The search finds a match exactly when the pattern derives at some start position. */
  lemma {:induction false} FirstMatchComplete(s: string, i: nat, p: seq<Node>, j: nat, r: Span)
    requires i <= j <= |s| && Derives(s, j, p, (0, 0), r)
    ensures FirstMatchFrom(s, i, p).Some?
    decreases |s| - i
  {
    assert ValidSpan(s, (0, 0)) by { assert s[0..0] == []; }
    if MatchFrom(s, i, p, (0, 0)).None? {
      if i == j {
        MatchComplete(s, j, p, (0, 0), r);
      } else {
        FirstMatchComplete(s, i + 1, p, j, r);
      }
    }
  }

  /** Every literal of a pattern that derives occurs in the text. */
  lemma {:induction false} DerivesHasLiterals(s: string, pos: int, p: seq<Node>, cap: Span, r: Span, n: nat)
    requires Derives(s, pos, p, cap, r) && n < |p| && p[n].Lit?
    ensures exists i :: OccursAt(s, p[n].text, i)
    decreases |p|
  {
    if n == 0 {
      assert OccursAt(s, p[0].text, pos);
    } else {
      assert p[1..][n - 1] == p[n];
      match p[0]
      case Lit(w) =>
        DerivesHasLiterals(s, pos + |w|, p[1..], cap, r, n - 1);
      case Spaces =>
        var k :| pos <= k <= |s| && AllSpaces(s[pos..k]) && Derives(s, k, p[1..], cap, r);
        DerivesHasLiterals(s, k, p[1..], cap, r, n - 1);
      case Lazy =>
        var e :| pos <= e <= |s| && NoLineBreak(s[pos..e]) && Derives(s, e, p[1..], (pos, e), r);
        DerivesHasLiterals(s, e, p[1..], (pos, e), r, n - 1);
      case LineEnd =>
        if pos < |s| && s[pos] == '\n' && Derives(s, pos + 1, p[1..], cap, r) {
          DerivesHasLiterals(s, pos + 1, p[1..], cap, r, n - 1);
        } else {
          DerivesHasLiterals(s, pos, p[1..], cap, r, n - 1);
        }
    }
  }

  /** A one-character literal can only match a text that holds that character. */
  lemma CharLiteralNeeded(s: string, p: seq<Node>, n: nat, c: char)
    requires n < |p| && p[n] == Lit([c]) && c !in s
    ensures FirstMatchFrom(s, 0, p).None?
  {
    if FirstMatchFrom(s, 0, p).Some? {
      var r := FirstMatchFrom(s, 0, p).value;
      var j :| 0 <= j <= |s| && Derives(s, j, p, (0, 0), r);
      CharLiteralIn(s, j, p, r, n, c);
    }
  }

  lemma CharLiteralIn(s: string, j: int, p: seq<Node>, r: Span, n: nat, c: char)
    requires n < |p| && p[n] == Lit([c]) && Derives(s, j, p, (0, 0), r)
    ensures c in s
  {
    DerivesHasLiterals(s, j, p, (0, 0), r, n);
    var i :| OccursAt(s, [c], i);
    assert s[i] == s[i..i + 1][0];
  }

  // ---------------------------------------------------------------- the six expressions

  const Tools: string := "\U{1F6E0}\U{FE0F}"

  /** `/✅\s*(.*?)\s*🆔/` */
  const NamePattern: seq<Node> := [Lit("✅"), Spaces, Lazy, Spaces, Lit("🆔")]
  /** `/📍\s*(.*?)\s*👥/` */
  const LocationPattern: seq<Node> := [Lit("📍"), Spaces, Lazy, Spaces, Lit("👥")]
  /** `/👥\s*Capacite:\s*(.*?)\s*🛠️/` */
  const CapacityPattern: seq<Node> := [Lit("👥"), Spaces, Lit("Capacite:"), Spaces, Lazy, Spaces, Lit(Tools)]
  /** `/🛠️\s*Equipements:\s*(.*?)\s*📅/` */
  const EquipmentPattern: seq<Node> := [Lit(Tools), Spaces, Lit("Equipements:"), Spaces, Lazy, Spaces, Lit("📅")]
  /** `/📅\s*(.*?)\s*⏰/` */
  const DatePattern: seq<Node> := [Lit("📅"), Spaces, Lazy, Spaces, Lit("⏰")]
  /** `/⏰\s*(.*?)(\n|$)/` */
  const TimePattern: seq<Node> := [Lit("⏰"), Spaces, Lazy, LineEnd]

  /** `s.match(p)?.[1]?.trim()`: the trimmed first group, when `p` matches. */
  function Segment(s: string, p: seq<Node>): (r: Option<string>)
    ensures r.Some? ==> IsTrimmed(r.value) && NoLineBreak(r.value)
    ensures r.Some? && NoDoubleStar(s) ==> NoDoubleStar(r.value)
  {
    match FirstMatchFrom(s, 0, p)
    case None => None
    case Some(c) =>
      NoLineBreakTrim(s[c.0..c.1]);
      NoDoubleStarTrimmedSlice(s, c.0, c.1);
      Some(Trim(s[c.0..c.1]))
  }

  lemma NoLineBreakTrim(g: string)
    requires NoLineBreak(g)
    ensures NoLineBreak(Trim(g))
  {
    var t := Trim(g);
    assert forall i :: 0 <= i < |t| ==> t[i] == g[TrimOffset(g) + i];
  }

  /** The segment is found exactly when the pattern derives somewhere in the text. */
  lemma SegmentFoundIff(s: string, p: seq<Node>)
    ensures Segment(s, p).Some? <==> exists j: nat, r :: j <= |s| && Derives(s, j, p, (0, 0), r)
  {
    if j: nat, r :| j <= |s| && Derives(s, j, p, (0, 0), r) {
      FirstMatchComplete(s, 0, p, j, r);
    }
    if FirstMatchFrom(s, 0, p).Some? {
      var r := FirstMatchFrom(s, 0, p).value;
      var j :| 0 <= j <= |s| && Derives(s, j, p, (0, 0), r);
      var n: nat := j;
      assert n <= |s| && Derives(s, n, p, (0, 0), r);
    }
  }

  // ---------------------------------------------------------------- what the expressions extract

  /** The search returns the matcher's capture at the leftmost start from
      which the pattern derives. */
  lemma {:induction false} FirstMatchLeftmost(s: string, i: nat, p: seq<Node>, j: nat, r: Span)
    requires i <= j <= |s| && Derives(s, j, p, (0, 0), r)
    requires forall k, r' :: i <= k < j ==> !Derives(s, k, p, (0, 0), r')
    ensures ValidSpan(s, (0, 0)) && MatchFrom(s, j, p, (0, 0)).Some?
    ensures FirstMatchFrom(s, i, p) == MatchFrom(s, j, p, (0, 0))
    decreases j - i
  {
    assert ValidSpan(s, (0, 0)) by { assert s[0..0] == []; }
    MatchComplete(s, j, p, (0, 0), r);
    if i < j {
      FirstMatchLeftmost(s, i + 1, p, j, r);
    }
  }

  /** `(.*?)` is lazy: its group ends at the first position from which the
      rest of the pattern derives. */
  lemma {:induction false} LazyFirstFit(s: string, start: nat, e: nat, rest: seq<Node>, target: nat, r: Span)
    requires start <= e <= target <= |s| && NoLineBreak(s[start..target])
    requires Derives(s, target, rest, (start, target), r)
    requires forall e', r' :: e <= e' < target ==> !Derives(s, e', rest, (start, e'), r')
    ensures NoLineBreak(s[start..e]) && MatchFrom(s, target, rest, (start, target)).Some?
    ensures LazyFrom(s, start, e, rest) == MatchFrom(s, target, rest, (start, target))
    decreases target - e
  {
    assert s[start..e] == s[start..target][..e - start];
    MatchComplete(s, target, rest, (start, target), r);
    if e < target {
      assert s[e] == s[start..target][e - start];
      LazyFirstFit(s, start, e + 1, rest, target, r);
    }
  }

  /** The run of white space from `pos` ends at the first character that is not white space. */
  lemma SpaceRunEndAt(s: string, pos: nat, end: nat)
    requires pos <= end < |s| && AllSpaces(s[pos..end]) && !IsSpace(s[end])
    ensures SpaceRunEnd(s, pos) == end
  {
    AllSpacesBetween(s, pos, end);
    AllSpacesBetween(s, pos, SpaceRunEnd(s, pos));
  }

  /** `\s*w` cannot derive from `e` when a character that is not white space
      comes before any occurrence of `w`'s first character. */
  lemma SpacesThenLitFails(s: string, e: nat, j: nat, w: string, cap: Span, r: Span)
    requires e <= j < |s| && !IsSpace(s[j]) && w != []
    requires forall i :: e <= i <= j ==> s[i] != w[0]
    ensures !Derives(s, e, [Spaces, Lit(w)], cap, r)
  {
    assert [Spaces, Lit(w)][1..] == [Lit(w)];
    forall k | e <= k <= |s| && AllSpaces(s[e..k]) ensures !Derives(s, k, [Lit(w)], cap, r) {
      AllSpacesBetween(s, e, k);
      assert k + |w| <= |s| ==> s[k..k + |w|][0] == s[k];
    }
  }

  /** A literal that occurs at `pos` is stepped over. */
  lemma MatchLit(s: string, pos: nat, w: string, rest: seq<Node>, cap: Span)
    requires OccursAt(s, w, pos) && ValidSpan(s, cap)
    ensures MatchFrom(s, pos, [Lit(w)] + rest, cap) == MatchFrom(s, pos + |w|, rest, cap)
  {
    assert ([Lit(w)] + rest)[0] == Lit(w) && ([Lit(w)] + rest)[1..] == rest;
  }

  /** `\s*` takes the whole run of white space when the rest matches after it. */
  lemma MatchSpacesGreedy(s: string, pos: nat, rest: seq<Node>, cap: Span)
    requires pos <= |s| && ValidSpan(s, cap) && MatchFrom(s, SpaceRunEnd(s, pos), rest, cap).Some?
    ensures MatchFrom(s, pos, [Spaces] + rest, cap) == MatchFrom(s, SpaceRunEnd(s, pos), rest, cap)
  {
    assert ([Spaces] + rest)[0] == Spaces && ([Spaces] + rest)[1..] == rest;
  }

  /** `(.*?)` starts with the empty group. */
  lemma MatchLazy(s: string, pos: nat, rest: seq<Node>, cap: Span)
    requires pos <= |s| && ValidSpan(s, cap)
    ensures NoLineBreak(s[pos..pos])
    ensures MatchFrom(s, pos, [Lazy] + rest, cap) == LazyFrom(s, pos, pos, rest)
  {
    assert ([Lazy] + rest)[0] == Lazy && ([Lazy] + rest)[1..] == rest;
    assert s[pos..pos] == [];
  }

  /** `\s*(.*?)\s*w` from `p0`, on white space up to `p1`, a group up to `t`
      whose last character is not white space and that holds neither a line
      break nor `w`'s first character, then white space up to `w` at `q`:
      the capture is the group. */
  lemma MatchGroup(s: string, p0: nat, p1: nat, t: nat, q: nat, w: string)
    requires p0 <= p1 <= t <= q && OccursAt(s, w, q) && w != [] && !IsSpace(w[0])
    requires AllSpaces(s[p0..p1]) && !IsSpace(s[p1]) && NoLineBreak(s[p1..t])
    requires (t > p1 ==> !IsSpace(s[t - 1])) && AllSpaces(s[t..q])
    requires forall i :: p1 <= i < t ==> s[i] != w[0]
    ensures ValidSpan(s, (0, 0))
    ensures MatchFrom(s, p0, [Spaces, Lazy, Spaces, Lit(w)], (0, 0)) == Some((p1, t))
  {
    assert ValidSpan(s, (0, 0)) by { assert s[0..0] == []; }
    assert s[q] == s[q..q + |w|][0];
    forall e', r' | p1 <= e' < t ensures !Derives(s, e', [Spaces, Lit(w)], (p1, e'), r') {
      SpacesThenLitFails(s, e', t - 1, w, (p1, e'), r');
    }
    assert [Spaces, Lit(w)][1..] == [Lit(w)];
    assert Derives(s, q, [Lit(w)], (p1, t), (p1, t));
    assert Derives(s, t, [Spaces, Lit(w)], (p1, t), (p1, t));
    LazyFirstFit(s, p1, p1, [Spaces, Lit(w)], t, (p1, t));
    SpaceRunEndAt(s, t, q);
    MatchLit(s, q, w, [], (p1, t));
    assert [Lit(w)] + [] == [Lit(w)];
    MatchSpacesGreedy(s, t, [Lit(w)], (p1, t));
    assert [Spaces] + [Lit(w)] == [Spaces, Lit(w)];
    MatchLazy(s, p1, [Spaces, Lit(w)], (0, 0));
    assert [Lazy] + [Spaces, Lit(w)] == [Lazy, Spaces, Lit(w)];
    SpaceRunEndAt(s, p0, p1);
    MatchSpacesGreedy(s, p0, [Lazy, Spaces, Lit(w)], (0, 0));
    assert [Spaces] + [Lazy, Spaces, Lit(w)] == [Spaces, Lazy, Spaces, Lit(w)];
  }

  /** Bounds `o` and `k` that cut `d` into white space, a part whose ends
      are not white space, and white space. */
  predicate TrimBounds(d: string, o: nat, k: nat) {
    o + k <= |d| && AllSpaces(d[..o]) && AllSpaces(d[o + k..])
    && (o < |d| ==> !IsSpace(d[o])) && (k > 0 ==> !IsSpace(d[o + k - 1]))
  }

  /** Every text has such bounds. */
  lemma TrimParts(d: string) returns (o: nat, k: nat)
    ensures TrimBounds(d, o, k)
  {
    o, k := LeadingSpaces(d), |Trim(d)|;
    if k > 0 {
      assert d[o + k - 1] == Trim(d)[k - 1];
    }
  }

  /** `Trim(d)` is the part between such bounds. */
  lemma TrimIsSlice(d: string, o: nat, k: nat)
    requires TrimBounds(d, o, k)
    ensures Trim(d) == d[o..o + k]
  {
    LeadingSpacesUnique(d, o);
    var r := d[o..];
    assert r[k..] == d[o + k..];
    if k > 0 {
      assert r[k - 1] == d[o + k - 1];
    }
    KeptLengthUnique(r, k);
  }

  /** The five parts of a concatenation, recovered by slicing. */
  lemma Pieces5(x0: string, x1: string, x2: string, x3: string, x4: string)
    ensures var s, n1 := x0 + x1 + x2 + x3 + x4, |x0| + |x1|;
      s[0..|x0|] == x0 && s[|x0|..n1] == x1 && s[n1..n1 + |x2|] == x2
      && s[n1 + |x2|..n1 + |x2| + |x3|] == x3 && s[n1 + |x2| + |x3|..] == x4
  {
  }

  /** The seven parts of a concatenation, recovered by slicing. */
  lemma Pieces7(x0: string, x1: string, x2: string, x3: string, x4: string, x5: string, x6: string)
    ensures var s, n1 := x0 + x1 + x2 + x3 + x4 + x5 + x6, |x0| + |x1|;
      var n3 := n1 + |x2| + |x3|;
      s[0..|x0|] == x0 && s[|x0|..n1] == x1 && s[n1..n1 + |x2|] == x2 && s[n1 + |x2|..n3] == x3
      && s[n3..n3 + |x4|] == x4 && s[n3 + |x4|..n3 + |x4| + |x5|] == x5 && s[n3 + |x4| + |x5|..] == x6
  {
  }

  lemma CharNotInSlice(s: string, lo: nat, hi: nat, c: char)
    requires lo <= hi <= |s| && c !in s[lo..hi]
    ensures forall i :: lo <= i < hi ==> s[i] != c
  {
    forall i | lo <= i < hi ensures s[i] != c {
      assert s[lo..hi][i - lo] == s[i];
    }
  }

  lemma SliceOfSlice(s: string, lo: nat, hi: nat, i: nat, j: nat, a: nat, b: nat)
    requires lo <= hi <= |s| && i <= j <= hi - lo && a == lo + i && b == lo + j
    ensures s[lo..hi][i..j] == s[a..b]
  {
    var x, y := s[lo..hi][i..j], s[a..b];
    forall k | 0 <= k < |x| ensures x[k] == y[k] {
      assert x[k] == s[lo..hi][i + k];
    }
  }

  /** `\s*(.*?)\s*w` from `p0`, where the text `s[p0..q]` runs on to `w` at
      `q` without a line break or `w`'s first character: the group is the
      part of that text between its trim bounds. */
  lemma MatchBetween(s: string, p0: nat, q: nat, w: string, o: nat, k: nat, lo: nat, hi: nat)
    requires p0 <= q && OccursAt(s, w, q) && w != [] && !IsSpace(w[0]) && TrimBounds(s[p0..q], o, k)
    requires NoLineBreak(s[p0..q]) && forall i :: p0 <= i < q ==> s[i] != w[0]
    requires lo == p0 + o && hi == lo + k
    ensures ValidSpan(s, (0, 0))
    ensures MatchFrom(s, p0, [Spaces, Lazy, Spaces, Lit(w)], (0, 0)) == Some((lo, hi))
  {
    assert s[q] == s[q..q + |w|][0];
    TrimBoundsInText(s, p0, q, o, k, lo, hi);
    NoLineBreakSlice(s, p0, q, lo, hi);
    MatchGroup(s, p0, lo, hi, q, w);
  }

  /** Trim bounds of `s[p0..q]`, stated on `s` itself, when a character other
      than white space follows at `q`. */
  lemma TrimBoundsInText(s: string, p0: nat, q: nat, o: nat, k: nat, lo: nat, hi: nat)
    requires p0 <= q < |s| && !IsSpace(s[q]) && TrimBounds(s[p0..q], o, k)
    requires lo == p0 + o && hi == lo + k
    ensures hi <= q && AllSpaces(s[p0..lo]) && AllSpaces(s[hi..q])
    ensures !IsSpace(s[lo]) && (hi > lo ==> !IsSpace(s[hi - 1]))
  {
    var d := s[p0..q];
    SliceOfSlice(s, p0, q, 0, o, p0, lo);
    assert d[..o] == d[0..o];
    SliceOfSlice(s, p0, q, o + k, q - p0, hi, q);
    assert d[o + k..] == d[o + k..q - p0];
    if o < q - p0 {
      assert s[lo] == d[o];
    }
    if k > 0 {
      assert s[hi - 1] == d[o + k - 1];
    }
  }

  lemma NoLineBreakSlice(s: string, lo: nat, hi: nat, i: nat, j: nat)
    requires lo <= i <= j <= hi <= |s| && NoLineBreak(s[lo..hi])
    ensures NoLineBreak(s[i..j])
  {
    forall x | 0 <= x < j - i ensures !IsLineTerminator(s[i..j][x]) {
      assert s[i..j][x] == s[lo..hi][i - lo + x];
    }
  }

  /** No derivation of a pattern that starts with literal `w` begins before
      the first occurrence of `w`'s first character. */
  lemma NoMatchBeforeMarker(s: string, n: nat, p: seq<Node>, w: string)
    requires n <= |s| && p != [] && p[0] == Lit(w) && w != []
    requires forall i :: 0 <= i < n ==> s[i] != w[0]
    ensures forall k, r' :: 0 <= k < n ==> !Derives(s, k, p, (0, 0), r')
  {
    forall k, r' | 0 <= k < n ensures !Derives(s, k, p, (0, 0), r') {
      assert k + |w| <= |s| ==> s[k..k + |w|][0] == s[k];
    }
  }

  /** A pattern that starts with literal `m`, on a text whose first `m[0]` is
      at `n`, yields the trimmed group `c` of the match from `n`. */
  lemma SegmentAtMarker(s: string, n: nat, m: string, p: seq<Node>, lo: nat, hi: nat)
    requires m != [] && OccursAt(s, m, n) && p != [] && p[0] == Lit(m)
    requires forall i :: 0 <= i < n ==> s[i] != m[0]
    requires ValidSpan(s, (0, 0)) && MatchFrom(s, n + |m|, p[1..], (0, 0)) == Some((lo, hi))
    ensures lo <= hi <= |s| && Segment(s, p).Some? && Segment(s, p).value == Trim(s[lo..hi])
  {
    NoMatchBeforeMarker(s, n, p, m);
    FirstMatchLeftmost(s, 0, p, n, (lo, hi));
  }

  lemma SegmentIs(s: string, p: seq<Node>, g: string, x: string, d: string)
    requires Segment(s, p).Some? && Segment(s, p).value == Trim(g) && Trim(g) == Trim(x) && x == d
    ensures Segment(s, p) == Some(Trim(d))
  {
  }

  /** The part of `x == s[p0..q]` between its trim bounds has the same trimmed form as `x`. */
  lemma GroupIsTrim(s: string, p0: nat, q: nat, o: nat, k: nat, lo: nat, hi: nat)
    requires p0 <= q <= |s| && TrimBounds(s[p0..q], o, k) && lo == p0 + o && hi == lo + k
    ensures Trim(s[lo..hi]) == Trim(s[p0..q])
  {
    TrimIsSlice(s[p0..q], o, k);
    SliceOfSlice(s, p0, q, o, o + k, lo, hi);
    TrimOfTrimmed(s[lo..hi]);
  }

  /** A pattern that starts with literal `m`, on a text whose first `m[0]` is
      at `n`, and whose remainder captures the trimmed part of `s[p0..q]`,
      extracts `s[p0..q]` trimmed. */
  lemma SegmentOfGroup(s: string, n: nat, m: string, p: seq<Node>, tail: seq<Node>,
                       p0: nat, q: nat, o: nat, k: nat, lo: nat, hi: nat, d: string)
    requires m != [] && OccursAt(s, m, n) && p == [Lit(m)] + tail
    requires forall i :: 0 <= i < n ==> s[i] != m[0]
    requires lo == p0 + o && hi == lo + k
    requires ValidSpan(s, (0, 0)) && MatchFrom(s, n + |m|, tail, (0, 0)) == Some((lo, hi))
    requires p0 <= q <= |s| && TrimBounds(s[p0..q], o, k) && s[p0..q] == d
    ensures Segment(s, p) == Some(Trim(d))
  {
    assert p[0] == Lit(m) && p[1..] == tail;
    SegmentAtMarker(s, n, m, p, lo, hi);
    GroupIsTrim(s, p0, q, o, k, lo, hi);
    SegmentIs(s, p, s[lo..hi], s[p0..q], d);
  }

  /** `m\s*(.*?)\s*w` on a text whose first `m[0]` is at `n`, followed by
      text without a line break or `w`'s first character up to `w` at `q`:
      the segment is that text trimmed. */
  lemma SegmentBetweenAt(s: string, n: nat, m: string, q: nat, w: string, d: string)
    requires m != [] && OccursAt(s, m, n) && forall i :: 0 <= i < n ==> s[i] != m[0]
    requires n + |m| <= q && OccursAt(s, w, q) && w != [] && !IsSpace(w[0])
    requires NoLineBreak(s[n + |m|..q]) && forall i :: n + |m| <= i < q ==> s[i] != w[0]
    requires s[n + |m|..q] == d
    ensures Segment(s, [Lit(m), Spaces, Lazy, Spaces, Lit(w)]) == Some(Trim(d))
  {
    var g := n + |m|;
    var o, k := TrimParts(s[g..q]);
    var lo, hi := g + o, g + o + k;
    MatchBetween(s, g, q, w, o, k, lo, hi);
    BetweenNodes(m, w);
    SegmentOfGroup(s, n, m, [Lit(m), Spaces, Lazy, Spaces, Lit(w)], [Spaces, Lazy, Spaces, Lit(w)], g, q, o, k, lo, hi, d);
  }

  /** `m\s*(.*?)\s*w`, as in the name, location and date expressions: on a text
      whose first `m` is followed by `d` and then `w`, where `d` holds no line
      break and not `w`'s first character, the segment is `d` trimmed. */
  lemma SegmentBetween(a: string, m: string, d: string, w: string, rest: string)
    requires m != [] && m[0] !in a && w != [] && !IsSpace(w[0])
    requires NoLineBreak(d) && w[0] !in d
    ensures Segment(a + m + d + w + rest, [Lit(m), Spaces, Lazy, Spaces, Lit(w)]) == Some(Trim(d))
  {
    var s := a + m + d + w + rest;
    Pieces5(a, m, d, w, rest);
    CharNotInSlice(s, 0, |a|, m[0]);
    CharNotInSlice(s, |a| + |m|, |a| + |m| + |d|, w[0]);
    SegmentBetweenAt(s, |a|, m, |a| + |m| + |d|, w, d);
  }

  /** `\s*key` followed by `rest`, where only white space comes before `key`,
      matches as `rest` does after `key`. */
  lemma MatchAfterKey(s: string, p0: nat, k0: nat, key: string, rest: seq<Node>, r: Option<Span>)
    requires p0 <= k0 && OccursAt(s, key, k0) && AllSpaces(s[p0..k0]) && key != [] && !IsSpace(key[0])
    requires ValidSpan(s, (0, 0)) && MatchFrom(s, k0 + |key|, rest, (0, 0)) == r && r.Some?
    ensures MatchFrom(s, p0, [Spaces, Lit(key)] + rest, (0, 0)) == r
  {
    assert s[k0] == s[k0..k0 + |key|][0];
    SpaceRunEndAt(s, p0, k0);
    MatchLit(s, k0, key, rest, (0, 0));
    MatchSpacesGreedy(s, p0, [Lit(key)] + rest, (0, 0));
    assert [Spaces] + ([Lit(key)] + rest) == [Spaces, Lit(key)] + rest;
  }

  /** `\s*key\s*(.*?)\s*w` from `p0`: the group is the text between `key`
      and `w` without its surrounding white space. */
  lemma MatchKeyBetween(s: string, p0: nat, k0: nat, key: string, g: nat, q: nat, w: string, o: nat, k: nat, lo: nat, hi: nat)
    requires p0 <= k0 && OccursAt(s, key, k0) && AllSpaces(s[p0..k0]) && key != [] && !IsSpace(key[0])
    requires g == k0 + |key| && g <= q && OccursAt(s, w, q) && w != [] && !IsSpace(w[0])
    requires TrimBounds(s[g..q], o, k) && lo == g + o && hi == lo + k
    requires NoLineBreak(s[g..q]) && forall i :: g <= i < q ==> s[i] != w[0]
    ensures ValidSpan(s, (0, 0))
    ensures MatchFrom(s, p0, [Spaces, Lit(key), Spaces, Lazy, Spaces, Lit(w)], (0, 0)) == Some((lo, hi))
  {
    MatchBetween(s, g, q, w, o, k, lo, hi);
    MatchAfterKey(s, p0, k0, key, [Spaces, Lazy, Spaces, Lit(w)], Some((lo, hi)));
    KeyNodes([], key, w);
    MatchSame(s, p0, [Spaces, Lit(key)] + [Spaces, Lazy, Spaces, Lit(w)], [Spaces, Lit(key), Spaces, Lazy, Spaces, Lit(w)],
              Some((lo, hi)));
  }

  /** The expressions of the capacity and equipment lines, as pieces. */
  lemma KeyNodes(m: string, key: string, w: string)
    ensures [Spaces, Lit(key)] + [Spaces, Lazy, Spaces, Lit(w)] == [Spaces, Lit(key), Spaces, Lazy, Spaces, Lit(w)]
    ensures [Lit(m), Spaces, Lit(key), Spaces, Lazy, Spaces, Lit(w)] == [Lit(m)] + [Spaces, Lit(key), Spaces, Lazy, Spaces, Lit(w)]
  {
  }

  /** The expressions of the name, location and date lines, as pieces. */
  lemma BetweenNodes(m: string, w: string)
    ensures [Lit(m), Spaces, Lazy, Spaces, Lit(w)] == [Lit(m)] + [Spaces, Lazy, Spaces, Lit(w)]
  {
  }

  lemma MatchSame(s: string, p0: nat, a: seq<Node>, b: seq<Node>, r: Option<Span>)
    requires p0 <= |s| && ValidSpan(s, (0, 0)) && a == b && MatchFrom(s, p0, a, (0, 0)) == r
    ensures MatchFrom(s, p0, b, (0, 0)) == r
  {
  }

  /** `m\s*key\s*(.*?)\s*w` on a text whose first `m[0]` is at `n`, followed
      by white space up to `key` at `k0`, then by text without a line break or
      `w`'s first character up to `w` at `q`: the segment is that text trimmed. */
  lemma SegmentAfterKeyAt(s: string, n: nat, m: string, k0: nat, key: string, q: nat, w: string, d: string)
    requires m != [] && OccursAt(s, m, n) && forall i :: 0 <= i < n ==> s[i] != m[0]
    requires n + |m| <= k0 && OccursAt(s, key, k0) && AllSpaces(s[n + |m|..k0]) && key != [] && !IsSpace(key[0])
    requires k0 + |key| <= q && OccursAt(s, w, q) && w != [] && !IsSpace(w[0])
    requires NoLineBreak(s[k0 + |key|..q]) && forall i :: k0 + |key| <= i < q ==> s[i] != w[0]
    requires s[k0 + |key|..q] == d
    ensures Segment(s, [Lit(m), Spaces, Lit(key), Spaces, Lazy, Spaces, Lit(w)]) == Some(Trim(d))
  {
    var g := k0 + |key|;
    var o, k := TrimParts(s[g..q]);
    var lo, hi := g + o, g + o + k;
    MatchKeyBetween(s, n + |m|, k0, key, g, q, w, o, k, lo, hi);
    KeyNodes(m, key, w);
    SegmentOfGroup(s, n, m, [Lit(m), Spaces, Lit(key), Spaces, Lazy, Spaces, Lit(w)],
                   [Spaces, Lit(key), Spaces, Lazy, Spaces, Lit(w)], g, q, o, k, lo, hi, d);
  }

  /** `m\s*key\s*(.*?)\s*w`, as in the capacity and equipment expressions:
      with only white space `b` between `m` and the label `key`, the segment is
      the text `d` between `key` and `w`, trimmed. */
  lemma SegmentAfterKey(a: string, m: string, b: string, key: string, d: string, w: string, rest: string)
    requires m != [] && m[0] !in a && AllSpaces(b) && key != [] && !IsSpace(key[0])
    requires w != [] && !IsSpace(w[0]) && NoLineBreak(d) && w[0] !in d
    ensures Segment(a + m + b + key + d + w + rest, [Lit(m), Spaces, Lit(key), Spaces, Lazy, Spaces, Lit(w)])
         == Some(Trim(d))
  {
    var s := a + m + b + key + d + w + rest;
    Pieces7(a, m, b, key, d, w, rest);
    CharNotInSlice(s, 0, |a|, m[0]);
    CharNotInSlice(s, |a| + |m| + |b| + |key|, |a| + |m| + |b| + |key| + |d|, w[0]);
    SegmentAfterKeyAt(s, |a|, m, |a| + |m| + |b|, key, |a| + |m| + |b| + |key| + |d|, w, d);
  }

  /** `\s*(.*?)(\n|$)` from `p0`: the group runs from the end of the white
      space at `p1` to the first line feed or the end of the text at `q`. */
  lemma MatchToLineEnd(s: string, p0: nat, p1: nat, q: nat)
    requires p0 <= p1 < q <= |s| && AllSpaces(s[p0..p1]) && !IsSpace(s[p1])
    requires NoLineBreak(s[p1..q]) && (q == |s| || s[q] == '\n')
    ensures ValidSpan(s, (0, 0))
    ensures MatchFrom(s, p0, [Spaces, Lazy, LineEnd], (0, 0)) == Some((p1, q))
  {
    assert ValidSpan(s, (0, 0)) by { assert s[0..0] == []; }
    assert [LineEnd][1..] == [];
    forall e', r' | p1 <= e' < q ensures !Derives(s, e', [LineEnd], (p1, e'), r') {
      assert s[e'] == s[p1..q][e' - p1];
    }
    assert Derives(s, q, [LineEnd], (p1, q), (p1, q));
    LazyFirstFit(s, p1, p1, [LineEnd], q, (p1, q));
    MatchLazy(s, p1, [LineEnd], (0, 0));
    assert [Lazy] + [LineEnd] == [Lazy, LineEnd];
    SpaceRunEndAt(s, p0, p1);
    MatchSpacesGreedy(s, p0, [Lazy, LineEnd], (0, 0));
    assert [Spaces] + [Lazy, LineEnd] == [Spaces, Lazy, LineEnd];
  }

  /** The time expression on a text whose first clock sign is at `n`, followed
      by white space up to `p1` and a line without a line break up to `q`,
      where a line feed or the end of the text follows: the time is that line,
      trimmed. */
  lemma TimeAt(s: string, n: nat, p1: nat, q: nat)
    requires OccursAt(s, "⏰", n) && forall i :: 0 <= i < n ==> s[i] != '⏰'
    requires n + 1 <= p1 < q <= |s| && AllSpaces(s[n + 1..p1]) && !IsSpace(s[p1])
    requires NoLineBreak(s[p1..q]) && (q == |s| || s[q] == '\n')
    ensures var r := Segment(s, TimePattern); r.Some? && r.value == Trim(s[p1..q])
  {
    MatchToLineEnd(s, n + 1, p1, q);
    assert TimePattern[1..] == [Spaces, Lazy, LineEnd];
    SegmentAtMarker(s, n, "⏰", TimePattern, p1, q);
  }

  /** `/⏰\s*(.*?)(\n|$)/`: the time is the rest of the line after the first
      clock sign and its white space, trimmed. */
  lemma TimeOfLine(a: string, b: string, t: string, rest: string)
    requires '⏰' !in a && AllSpaces(b) && t != [] && !IsSpace(t[0]) && NoLineBreak(t)
    requires rest == [] || rest[0] == '\n'
    ensures Segment(a + "⏰" + b + t + rest, TimePattern) == Some(Trim(t))
  {
    var s := a + "⏰" + b + t + rest;
    Pieces5(a, "⏰", b, t, rest);
    assert s[|a| + 1 + |b|] == s[|a| + 1 + |b|..|a| + 1 + |b| + |t|][0];
    assert |a| + 1 + |b| + |t| < |s| ==> s[|a| + 1 + |b| + |t|] == s[|a| + 1 + |b| + |t|..][0];
    CharNotInSlice(s, 0, |a|, '⏰');
    TimeAt(s, |a|, |a| + 1 + |b|, |a| + 1 + |b| + |t|);
  }

  /** `/✅\s*(.*?)\s*🆔/`: the name between the first check mark and the
      identifier sign. */
  lemma NameOfCard(a: string, d: string, rest: string)
    requires '✅' !in a && NoLineBreak(d) && '🆔' !in d
    ensures Segment(a + "✅" + d + "🆔" + rest, NamePattern) == Some(Trim(d))
  {
    SegmentBetween(a, "✅", d, "🆔", rest);
  }

  /** `/📍\s*(.*?)\s*👥/`: the location between the first pin and the
      capacity sign. */
  lemma LocationOfCard(a: string, d: string, rest: string)
    requires '📍' !in a && NoLineBreak(d) && '👥' !in d
    ensures Segment(a + "📍" + d + "👥" + rest, LocationPattern) == Some(Trim(d))
  {
    SegmentBetween(a, "📍", d, "👥", rest);
  }

  /** `/📅\s*(.*?)\s*⏰/`: the date between the first calendar sign and the
      clock sign. */
  lemma DateOfCard(a: string, d: string, rest: string)
    requires '📅' !in a && NoLineBreak(d) && '⏰' !in d
    ensures Segment(a + "📅" + d + "⏰" + rest, DatePattern) == Some(Trim(d))
  {
    SegmentBetween(a, "📅", d, "⏰", rest);
  }

  /** `/👥\s*Capacite:\s*(.*?)\s*🛠️/`: the capacity between the label after
      the first capacity sign and the tools sign. */
  lemma CapacityOfCard(a: string, b: string, d: string, rest: string)
    requires '👥' !in a && AllSpaces(b) && NoLineBreak(d) && Tools[0] !in d
    ensures Segment(a + "👥" + b + "Capacite:" + d + Tools + rest, CapacityPattern) == Some(Trim(d))
  {
    SegmentAfterKey(a, "👥", b, "Capacite:", d, Tools, rest);
  }

  /** `/🛠️\s*Equipements:\s*(.*?)\s*📅/`: the equipment list between the
      label after the first tools sign and the calendar sign. */
  lemma EquipmentOfCard(a: string, b: string, d: string, rest: string)
    requires Tools[0] !in a && AllSpaces(b) && NoLineBreak(d) && '📅' !in d
    ensures Segment(a + Tools + b + "Equipements:" + d + "📅" + rest, EquipmentPattern) == Some(Trim(d))
  {
    SegmentAfterKey(a, Tools, b, "Equipements:", d, "📅", rest);
  }

  /** The fields of a proposal card. */
  datatype Confirmation = Confirmation(
    name: string,
    location: Option<string>,
    capacity: Option<string>,
    equipments: seq<string>,
    date: string,
    time: string)

  /** `equipmentsStr.split(',').map(e => e.trim())`, or no items for an absent or empty segment. */
  function Equipments(segment: Option<string>): (items: seq<string>)
    ensures segment.None? || segment.value == [] ==> items == []
    ensures forall k :: 0 <= k < |items| ==> IsTrimmed(items[k]) && ',' !in items[k]
    ensures segment.Some? && NoDoubleStar(segment.value) ==>
      forall k :: 0 <= k < |items| ==> NoDoubleStar(items[k])
  {
    if segment.None? || segment.value == [] then []
    else
      var parts := Split(segment.value, ',');
      NoDoubleStarPieces(segment.value, ',');
      TrimEach(parts)
  }

  /** Every piece trimmed, as `.map(e => e.trim())` does. */
  function TrimEach(parts: seq<string>): (r: seq<string>)
    ensures |r| == |parts|
    ensures forall k :: 0 <= k < |parts| ==> r[k] == Trim(parts[k])
  {
    seq(|parts|, k requires 0 <= k < |parts| => Trim(parts[k]))
  }

  lemma NoDoubleStarPieces(s: string, sep: char)
    ensures NoDoubleStar(s) ==> forall k :: 0 <= k < |Split(s, sep)| ==> NoDoubleStar(Trim(Split(s, sep)[k]))
  {
    if NoDoubleStar(s) {
      NoDoubleStarSplit(s, sep);
      forall k | 0 <= k < |Split(s, sep)| ensures NoDoubleStar(Trim(Split(s, sep)[k])) {
        NoDoubleStarTrim(Split(s, sep)[k]);
      }
    }
  }

  /** `parseConfirmationText`. */
  function ParseConfirmationText(text: string): (r: Option<Confirmation>)
    ensures r.Some? ==> r.value.date != [] && r.value.time != []
  {
    var clean := StripDoubleStars(text);
    Assemble(
      Segment(clean, NamePattern),
      Segment(clean, LocationPattern),
      Segment(clean, CapacityPattern),
      Segment(clean, EquipmentPattern),
      Segment(clean, DatePattern),
      Segment(clean, TimePattern))
  }

  /** The card built from the six segments: none without a non-empty date and
      time, and "Salle" for an absent or empty name. */
  function Assemble(name: Option<string>, location: Option<string>, capacity: Option<string>,
                    equipment: Option<string>, date: Option<string>, time: Option<string>): (r: Option<Confirmation>)
    ensures r.Some? <==> date.Some? && date.value != [] && time.Some? && time.value != []
    ensures r.Some? ==> r.value.date == date.value && r.value.time == time.value
    ensures r.Some? ==> r.value.name == (if name.Some? && name.value != [] then name.value else "Salle")
    ensures r.Some? ==> r.value.location == location && r.value.capacity == capacity
  {
    if date.None? || date.value == [] || time.None? || time.value == [] then None
    else
      Some(Confirmation(
        if name.None? || name.value == [] then "Salle" else name.value,
        location, capacity, Equipments(equipment), date.value, time.value))
  }

  /** Trimmed segments make a card of trimmed fields. */
  lemma AssembleTrimmed(n: Option<string>, l: Option<string>, c: Option<string>, e: Option<string>, d: Option<string>, t: Option<string>)
    requires Assemble(n, l, c, e, d, t).Some?
    requires n.Some? ==> IsTrimmed(n.value)
    requires l.Some? ==> IsTrimmed(l.value)
    requires c.Some? ==> IsTrimmed(c.value)
    requires IsTrimmed(d.value) && IsTrimmed(t.value) && NoLineBreak(t.value)
    ensures var card := Assemble(n, l, c, e, d, t).value;
      && IsTrimmed(card.name) && IsTrimmed(card.date) && IsTrimmed(card.time)
      && (card.location.Some? ==> IsTrimmed(card.location.value))
      && (card.capacity.Some? ==> IsTrimmed(card.capacity.value))
      && (forall k :: 0 <= k < |card.equipments| ==> IsTrimmed(card.equipments[k]))
      && NoLineBreak(card.time)
  {
  }

  /** Segments without "**" make a card without "**". */
  lemma AssembleNoDoubleStar(n: Option<string>, l: Option<string>, c: Option<string>, e: Option<string>, d: Option<string>, t: Option<string>)
    requires Assemble(n, l, c, e, d, t).Some?
    requires n.Some? ==> NoDoubleStar(n.value)
    requires l.Some? ==> NoDoubleStar(l.value)
    requires c.Some? ==> NoDoubleStar(c.value)
    requires e.Some? ==> NoDoubleStar(e.value)
    requires NoDoubleStar(d.value) && NoDoubleStar(t.value)
    ensures var card := Assemble(n, l, c, e, d, t).value;
      && NoDoubleStar(card.name) && NoDoubleStar(card.date) && NoDoubleStar(card.time)
      && (card.location.Some? ==> NoDoubleStar(card.location.value))
      && (card.capacity.Some? ==> NoDoubleStar(card.capacity.value))
      && (forall k :: 0 <= k < |card.equipments| ==> NoDoubleStar(card.equipments[k]))
  {
    assert NoDoubleStar("Salle");
  }

  /** Every field of a parsed card is trimmed, and the time holds no line break. */
  lemma ParsedFieldsTrimmed(text: string)
    requires ParseConfirmationText(text).Some?
    ensures var c := ParseConfirmationText(text).value;
      && IsTrimmed(c.name) && IsTrimmed(c.date) && IsTrimmed(c.time)
      && (c.location.Some? ==> IsTrimmed(c.location.value))
      && (c.capacity.Some? ==> IsTrimmed(c.capacity.value))
      && (forall k :: 0 <= k < |c.equipments| ==> IsTrimmed(c.equipments[k]))
      && NoLineBreak(c.time)
  {
    var clean := StripDoubleStars(text);
    var n := Segment(clean, NamePattern);
    var l := Segment(clean, LocationPattern);
    var c := Segment(clean, CapacityPattern);
    var e := Segment(clean, EquipmentPattern);
    var d := Segment(clean, DatePattern);
    var t := Segment(clean, TimePattern);
    assert ParseConfirmationText(text) == Assemble(n, l, c, e, d, t);
    AssembleTrimmed(n, l, c, e, d, t);
  }

  /** No field of a parsed card holds "**". */
  lemma ParsedFieldsHaveNoDoubleStar(text: string)
    requires ParseConfirmationText(text).Some?
    ensures var c := ParseConfirmationText(text).value;
      && NoDoubleStar(c.name) && NoDoubleStar(c.date) && NoDoubleStar(c.time)
      && (c.location.Some? ==> NoDoubleStar(c.location.value))
      && (c.capacity.Some? ==> NoDoubleStar(c.capacity.value))
      && (forall k :: 0 <= k < |c.equipments| ==> NoDoubleStar(c.equipments[k]))
  {
    var clean := StripDoubleStars(text);
    var n := Segment(clean, NamePattern);
    var l := Segment(clean, LocationPattern);
    var c := Segment(clean, CapacityPattern);
    var e := Segment(clean, EquipmentPattern);
    var d := Segment(clean, DatePattern);
    var t := Segment(clean, TimePattern);
    assert ParseConfirmationText(text) == Assemble(n, l, c, e, d, t);
    AssembleNoDoubleStar(n, l, c, e, d, t);
  }

  /** A message without ⏰ or without 📅 is not a proposal card. */
  lemma ParseNeedsClockAndCalendar(text: string)
    requires '⏰' !in text || '📅' !in text
    ensures ParseConfirmationText(text).None?
  {
    var clean := StripDoubleStars(text);
    if '⏰' !in text {
      assert '⏰' !in clean;
      CharLiteralNeeded(clean, TimePattern, 0, '⏰');
    } else {
      assert '📅' !in clean;
      CharLiteralNeeded(clean, DatePattern, 0, '📅');
    }
  }

  /** Without both ✅ and 🆔 the card falls back to the name "Salle". */
  lemma NameDefaultsToSalle(text: string)
    requires '✅' !in text || '🆔' !in text
    requires ParseConfirmationText(text).Some?
    ensures ParseConfirmationText(text).value.name == "Salle"
  {
    var clean := StripDoubleStars(text);
    if '✅' !in text {
      assert '✅' !in clean;
      CharLiteralNeeded(clean, NamePattern, 0, '✅');
    } else {
      assert '🆔' !in clean;
      CharLiteralNeeded(clean, NamePattern, 4, '🆔');
    }
  }

  /** Items written as `Join(items, ", ")` are read back unchanged. */
  lemma EquipmentsOfJoined(items: seq<string>)
    requires items != []
    requires forall k :: 0 <= k < |items| ==> items[k] != [] && IsTrimmed(items[k]) && ',' !in items[k]
    ensures Equipments(Some(Join(items, ", "))) == items
  {
    var j := Join(items, ", ");
    JoinPadded(items);
    JoinStartsWithFirst(items, ", ");
    SplitPadded(items);
    TrimEachPadded(items);
    EquipmentsOfText(j);
  }

  lemma EquipmentsOfText(text: string)
    requires text != []
    ensures Equipments(Some(text)) == TrimEach(Split(text, ','))
  {
  }

  lemma TrimEachPadded(items: seq<string>)
    requires items != []
    requires forall k :: 0 <= k < |items| ==> IsTrimmed(items[k])
    ensures TrimEach(Padded(items)) == items
  {
    TrimPadded(items);
  }

  lemma SplitPadded(items: seq<string>)
    requires items != []
    requires forall k :: 0 <= k < |items| ==> ',' !in items[k]
    ensures Split(Join(Padded(items), ","), ',') == Padded(items)
  {
    var padded := Padded(items);
    assert forall k :: 0 <= k < |padded| ==> ',' !in padded[k];
    SplitJoin(padded, ',');
  }

  lemma TrimPadded(items: seq<string>)
    requires items != []
    requires forall k :: 0 <= k < |items| ==> IsTrimmed(items[k])
    ensures forall k :: 0 <= k < |items| ==> Trim(Padded(items)[k]) == items[k]
  {
    var padded := Padded(items);
    TrimOfTrimmed(items[0]);
    forall k | 0 < k < |items| ensures Trim(padded[k]) == items[k] {
      TrimAfterSpace(items[k]);
    }
  }

  lemma TrimAfterSpace(x: string)
    requires IsTrimmed(x)
    ensures Trim(" " + x) == x
  {
    TrimOfPadded(" ", x, "");
    assert " " + x + "" == " " + x;
    TrimOfTrimmed(x);
  }

  /** The first item, then each further item behind a space. */
  function Padded(items: seq<string>): (r: seq<string>)
    requires items != []
    ensures |r| == |items| && r[0] == items[0]
    ensures forall k :: 0 < k < |items| ==> r[k] == " " + items[k]
  {
    [items[0]] + seq(|items| - 1, k requires 0 <= k < |items| - 1 => " " + items[k + 1])
  }

  lemma {:induction false} JoinPadded(items: seq<string>)
    requires items != []
    ensures Join(items, ", ") == Join(Padded(items), ",")
    decreases |items|
  {
    if |items| > 1 {
      JoinPadded(items[1..]);
      var p := Padded(items);
      var q := Padded(items[1..]);
      assert p[1..] == [" " + q[0]] + q[1..];
      JoinFirstPrefixed(q, " ", ",");
    }
  }

  /** Putting `x` in front of the first piece puts it in front of the joined text. */
  lemma JoinFirstPrefixed(parts: seq<string>, x: string, sep: string)
    requires parts != []
    ensures Join([x + parts[0]] + parts[1..], sep) == x + Join(parts, sep)
  {
    if |parts| > 1 {
      JoinCons(x + parts[0], parts[1..], sep);
    }
  }

  lemma JoinStartsWithFirst(parts: seq<string>, sep: string)
    requires parts != []
    ensures |Join(parts, sep)| >= |parts[0]|
  {
  }

  // ---------------------------------------------------------------- classifiers

  /** `isProposalFormat`: the text holds ✅, 🆔 and ⏰. */
  function IsProposalFormat(text: string): bool {
    Contains(text, "✅") && Contains(text, "🆔") && Contains(text, "⏰")
  }

  /** Each marker is one character, so the test is character membership. */
  lemma IsProposalFormatIff(text: string)
    ensures IsProposalFormat(text) <==> '✅' in text && '🆔' in text && '⏰' in text
  {
    ContainsChar(text, '✅');
    ContainsChar(text, '🆔');
    ContainsChar(text, '⏰');
  }

  /** Every card the parser accepts carries ⏰, and a message in the proposal
      format always has it. */
  lemma ParsedHasClock(text: string)
    requires ParseConfirmationText(text).Some? || IsProposalFormat(text)
    ensures '⏰' in text
  {
    IsProposalFormatIff(text);
    if '⏰' !in text {
      ParseNeedsClockAndCalendar(text);
    }
  }

  /** The icons of `getEquipmentIcon`. */
  datatype Icon = Wifi | Monitor | Video | Wind | Check

  /** `getEquipmentIcon`: the first keyword family found in the lower-cased name. */
  function EquipmentIcon(name: string): Icon {
    var n := Lower(name);
    if Contains(n, "wifi") then Wifi
    else if Contains(n, "vidéo") || Contains(n, "projecteur") || Contains(n, "écran") || Contains(n, "tv") then Monitor
    else if Contains(n, "webcam") || Contains(n, "visio") then Video
    else if Contains(n, "clim") || Contains(n, "air") then Wind
    else Check
  }

  /** The keywords of each icon, as a table. */
  function Keywords(icon: Icon): seq<string> {
    match icon
    case Wifi => ["wifi"]
    case Monitor => ["vidéo", "projecteur", "écran", "tv"]
    case Video => ["webcam", "visio"]
    case Wind => ["clim", "air"]
    case Check => []
  }

  /** The order in which the families are tried. */
  const Priority: seq<Icon> := [Wifi, Monitor, Video, Wind]

  predicate MentionsFamily(n: string, icon: Icon) {
    exists w :: w in Keywords(icon) && Contains(n, w)
  }

  /** The first family of `families` that `n` mentions, or `Check`. */
  function FirstFamily(n: string, families: seq<Icon>): Icon {
    if families == [] then Check
    else if MentionsFamily(n, families[0]) then families[0]
    else FirstFamily(n, families[1..])
  }

  /** The icon is the first family, in priority order, with a keyword in the
      lower-cased name. */
  lemma EquipmentIconIsFirstFamily(name: string)
    ensures EquipmentIcon(name) == FirstFamily(Lower(name), Priority)
  {
    var n := Lower(name);
    assert MentionsFamily(n, Wifi) <==> Contains(n, "wifi") by {
      assert Keywords(Wifi) == ["wifi"];
    }
    assert MentionsFamily(n, Monitor) <==> Contains(n, "vidéo") || Contains(n, "projecteur") || Contains(n, "écran") || Contains(n, "tv") by {
      var ks := Keywords(Monitor);
      assert ks == ["vidéo", "projecteur", "écran", "tv"];
      assert ks[0] in ks && ks[1] in ks && ks[2] in ks && ks[3] in ks;
    }
    assert MentionsFamily(n, Video) <==> Contains(n, "webcam") || Contains(n, "visio") by {
      var ks := Keywords(Video);
      assert ks[0] in ks && ks[1] in ks;
    }
    assert MentionsFamily(n, Wind) <==> Contains(n, "clim") || Contains(n, "air") by {
      var ks := Keywords(Wind);
      assert ks[0] in ks && ks[1] in ks;
    }
    assert [Wind][1..] == [];
    assert FirstFamily(n, [Wind]) == if MentionsFamily(n, Wind) then Wind else Check;
    assert [Video, Wind][1..] == [Wind];
    assert FirstFamily(n, [Video, Wind]) == if MentionsFamily(n, Video) then Video else FirstFamily(n, [Wind]);
    assert [Monitor, Video, Wind][1..] == [Video, Wind];
    assert FirstFamily(n, [Monitor, Video, Wind]) == if MentionsFamily(n, Monitor) then Monitor else FirstFamily(n, [Video, Wind]);
    assert Priority[1..] == [Monitor, Video, Wind];
  }

  /** The icon does not depend on letter case. */
  lemma EquipmentIconIgnoresCase(a: string, b: string)
    requires Lower(a) == Lower(b)
    ensures EquipmentIcon(a) == EquipmentIcon(b)
  {
  }

  lemma EquipmentIconOfLower(name: string)
    ensures EquipmentIcon(Lower(name)) == EquipmentIcon(name)
  {
    LowerIdempotent(name);
    EquipmentIconIgnoresCase(Lower(name), name);
  }

  // ---------------------------------------------------------------- short date and time

  /** `date.split(' ').slice(1, 2).join(' ') || date`. */
  function ShortDate(date: string): (r: string)
    ensures r == date || (r != [] && ' ' !in r)
  {
    var parts := Split(date, ' ');
    if |parts| >= 2 && parts[1] != [] then parts[1] else date
  }

  /** The second word of a date such as "Lundi 12/05/2025" or "lundi 12/05 2025"
      is shown. */
  lemma ShortDateSecondWord(a: string, b: string, rest: string)
    requires ' ' !in a && ' ' !in b && b != []
    requires rest == [] || rest[0] == ' '
    ensures ShortDate(a + " " + b + rest) == b
  {
    SplitAround(a, ' ', b);
    SplitWithoutSeparator(a, ' ');
    SplitWithoutSeparator(b, ' ');
    if rest != [] {
      assert a + " " + b + rest == (a + " " + b) + [' '] + rest[1..];
      SplitAround(a + " " + b, ' ', rest[1..]);
    } else {
      assert a + " " + b + rest == a + [' '] + b;
    }
  }

  /** A date whose second piece is empty ("a ", "a  b") is shown whole. */
  lemma ShortDateEmptySecondPiece(a: string, rest: string)
    requires ' ' !in a
    requires rest == [] || rest[0] == ' '
    ensures ShortDate(a + " " + rest) == a + " " + rest
  {
    SplitWithoutSeparator(a, ' ');
    SplitAround(a, ' ', rest);
    if rest != [] {
      assert rest == [] + [' '] + rest[1..];
      SplitAround([], ' ', rest[1..]);
    }
  }

  /** A date of one word, without a space, is shown whole. */
  lemma ShortDateOneWord(date: string)
    requires ' ' !in date
    ensures ShortDate(date) == date
  {
    SplitWithoutSeparator(date, ' ');
  }

  /** `time.split('(')[0].trim()`. */
  function ShortTime(time: string): (r: string)
    ensures IsTrimmed(r) && '(' !in r
  {
    var t := Trim(Split(time, '(')[0]);
    assert forall i :: 0 <= i < |t| ==> t[i] in Split(time, '(')[0];
    t
  }

  /** A time such as "14:00 (1h)" loses its parenthesised remark. */
  lemma ShortTimeDropsRemark(a: string, b: string)
    requires '(' !in a
    ensures ShortTime(a + "(" + b) == Trim(a)
  {
    SplitAround(a, '(', b);
    SplitWithoutSeparator(a, '(');
  }

  /** A time without a parenthesised remark, such as "14:00 à 15:00", is only trimmed. */
  lemma ShortTimeWithoutRemark(time: string)
    requires '(' !in time
    ensures ShortTime(time) == Trim(time)
  {
    SplitWithoutSeparator(time, '(');
  }
}
