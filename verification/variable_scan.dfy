/** The template-variable scanner behind the text nodes' dynamic input ports: repeated
    `exec` of the global pattern `{{([a-zA-Z_$][a-zA-Z0-9_$]*)}}`, each captured name added
    to a `Set`. */
module VariableScan {
  import opened Js
  import opened Seqs

  predicate IsIdentStart(c: char) {
    ('a' <= c <= 'z') || ('A' <= c <= 'Z') || c == '_' || c == '$'
  }

  predicate IsIdentChar(c: char) {
    IsIdentStart(c) || ('0' <= c <= '9')
  }

  /** A name the pattern can capture: `[A-Za-z_$][A-Za-z0-9_$]*`. */
  predicate IsIdentifier(s: string) {
    |s| > 0 && IsIdentStart(s[0]) && forall i :: 1 <= i < |s| ==> IsIdentChar(s[i])
  }

  /** The text that refers to variable `name`. */
  function Placeholder(name: string): string {
    "{{" + name + "}}"
  }

  ghost predicate Occurs(pat: string, t: string) {
    exists k :: OccursAt(pat, t, k)
  }

  /** The end of the longest run of identifier characters starting at `j`. */
  function RunEnd(t: string, j: nat): (k: nat)
    requires j <= |t|
    ensures j <= k <= |t|
    ensures forall m :: j <= m < k ==> IsIdentChar(t[m])
    ensures k == |t| || !IsIdentChar(t[k])
    decreases |t| - j
  {
    if j < |t| && IsIdentChar(t[j]) then RunEnd(t, j + 1) else j
  }

  /** The pattern tried at index `i` alone.  It matches when `t` has `{{` at `i`, an
      identifier start after it, and `}}` right after the longest identifier run; the
      result is the index where that run ends.  Backtracking into a shorter run cannot
      help, since the character after a shorter run is an identifier character, not `}`. */
  function MatchEnd(t: string, i: nat): (r: Option<nat>)
    requires i <= |t|
    ensures r.Some? ==> i + 3 <= r.value && r.value + 2 <= |t|
  {
    if i + 2 < |t| && t[i] == '{' && t[i + 1] == '{' && IsIdentStart(t[i + 2]) then
      var k := RunEnd(t, i + 2);
      if k + 1 < |t| && t[k] == '}' && t[k + 1] == '}' then Some(k) else None
    else None
  }

  /** What a match at `i` ending its name at `k` looks like, character by character. */
  lemma MatchEndShape(t: string, i: nat)
    requires i <= |t| && MatchEnd(t, i).Some?
    ensures var k := MatchEnd(t, i).value;
            t[i] == '{' && t[i + 1] == '{' && IsIdentStart(t[i + 2])
            && (forall m :: i + 2 <= m < k ==> IsIdentChar(t[m]))
            && t[k] == '}' && t[k + 1] == '}'
  {
  }

  /** A match captures an identifier `name`, with `{{name}}` standing exactly there. */
  lemma MatchEndSound(t: string, i: nat)
    requires i <= |t| && MatchEnd(t, i).Some?
    ensures var k := MatchEnd(t, i).value;
            IsIdentifier(t[i + 2..k]) && OccursAt(Placeholder(t[i + 2..k]), t, i)
  {
    var k := MatchEnd(t, i).value;
    MatchEndShape(t, i);
    assert t[i..k + 2] == Placeholder(t[i + 2..k]);
  }

  /** The names captured by successive `exec` calls, starting from `lastIndex == i`: on a
      match the scan resumes after the closing `}}`, otherwise one character further. */
  function Matches(t: string, i: nat): seq<string>
    requires i <= |t|
    decreases |t| - i
  {
    if i == |t| then []
    else
      match MatchEnd(t, i)
      case Some(k) => [t[i + 2..k]] + Matches(t, k + 2)
      case None => Matches(t, i + 1)
  }

  /** The names of the text's variables, in `Set` insertion order. */
  function Extract(t: string): (r: seq<string>)
    ensures Distinct(r)
    ensures forall x :: x in r <==> x in Matches(t, 0)
  {
    DedupSpec(Matches(t, 0));
    Dedup(Matches(t, 0))
  }

  /** Wherever `{{name}}` stands, with `name` an identifier, the pattern matches there
      and captures exactly `name`. */
  lemma MatchAtPlaceholder(t: string, p: nat, name: string)
    requires IsIdentifier(name) && OccursAt(Placeholder(name), t, p)
    ensures MatchEnd(t, p) == Some(p + 2 + |name|)
    ensures t[p + 2..p + 2 + |name|] == name
  {
    var e := p + 2 + |name|;
    PlaceholderChars(t, p, name);
    RunEndAt(t, p + 2, e);
  }

  /** The characters of an occurrence of `{{name}}` at `p`. */
  lemma PlaceholderChars(t: string, p: nat, name: string)
    requires OccursAt(Placeholder(name), t, p)
    ensures var e := p + 2 + |name|;
            e + 1 < |t| && t[p] == '{' && t[p + 1] == '{' && t[e] == '}' && t[e + 1] == '}'
            && t[p + 2..e] == name
  {
    var w := Placeholder(name);
    var e := p + 2 + |name|;
    assert t[p..p + |w|] == w;
    assert t[p] == t[p..p + |w|][0] && t[p + 1] == t[p..p + |w|][1];
    assert t[e] == t[p..p + |w|][e - p] && t[e + 1] == t[p..p + |w|][e + 1 - p];
    forall m | 0 <= m < |name| ensures t[p + 2 + m] == name[m] {
      assert t[p + 2 + m] == t[p..p + |w|][2 + m] == w[2 + m];
    }
    assert t[p + 2..e] == name;
  }

  /** The identifier run from `j` ends at `e` when all characters before `e` are identifier
      characters and the one at `e` is not. */
  lemma {:induction false} RunEndAt(t: string, j: nat, e: nat)
    requires j <= e < |t| && !IsIdentChar(t[e])
    requires forall m :: j <= m < e ==> IsIdentChar(t[m])
    ensures RunEnd(t, j) == e
    decreases e - j
  {
    if j < e {
      RunEndAt(t, j + 1, e);
    }
  }

  /** Every captured name is an identifier whose placeholder occurs in the text. */
  lemma {:induction false} MatchesSound(t: string, i: nat)
    requires i <= |t|
    ensures forall x :: x in Matches(t, i) ==> IsIdentifier(x) && Occurs(Placeholder(x), t)
    decreases |t| - i
  {
    if i < |t| {
      match MatchEnd(t, i)
      case Some(k) =>
        MatchesSound(t, k + 2);
        MatchEndSound(t, i);
      case None =>
        MatchesSound(t, i + 1);
    }
  }

  /** No placeholder at or after the scan position is skipped: matches never overlap
      one, because inside a match `{` appears only as its first two characters. */
  lemma MatchesComplete(t: string, i: nat, p: nat, name: string)
    requires i <= p && IsIdentifier(name) && OccursAt(Placeholder(name), t, p)
    ensures i <= |t| && name in Matches(t, i)
  {
    MatchAtPlaceholder(t, p, name);
    MatchReached(t, i, p);
  }

  /** A scan started at or before a match position captures that match's name. */
  lemma {:induction false} MatchReached(t: string, i: nat, p: nat)
    requires i <= p <= |t| && MatchEnd(t, p).Some?
    ensures t[p + 2..MatchEnd(t, p).value] in Matches(t, i)
    decreases p - i
  {
    if i < p {
      MatchEndShape(t, p);
      match MatchEnd(t, i)
      case None =>
        MatchReached(t, i + 1, p);
      case Some(k) =>
        NoOverlap(t, i, k, p);
        MatchReached(t, k + 2, p);
    }
  }

  /** A match starting before `p` ends before any `{{` found at `p`. */
  lemma NoOverlap(t: string, i: nat, k: nat, p: nat)
    requires i < p && p + 1 < |t| && t[p] == '{' && t[p + 1] == '{'
    requires MatchEnd(t, i) == Some(k)
    ensures k + 2 <= p
  {
    MatchEndShape(t, i);
  }

  /** A name is a variable of the text exactly when it is an identifier and its
      placeholder `{{name}}` appears somewhere in the text. */
  lemma ExtractIff(t: string, name: string)
    ensures name in Extract(t) <==> IsIdentifier(name) && Occurs(Placeholder(name), t)
  {
    DedupSpec(Matches(t, 0));
    MatchesSound(t, 0);
    if IsIdentifier(name) && Occurs(Placeholder(name), t) {
      var p :| OccursAt(Placeholder(name), t, p);
      MatchesComplete(t, 0, p, name);
    }
  }

  /** The variables come out in the order of their first capture. */
  lemma ExtractOrder(t: string)
    ensures forall x :: x in Extract(t) <==> x in Matches(t, 0)
    ensures forall i, j :: 0 <= i < j < |Extract(t)| ==>
              FirstIndex(Matches(t, 0), Extract(t)[i]) < FirstIndex(Matches(t, 0), Extract(t)[j])
  {
    DedupSpec(Matches(t, 0));
  }

  /** Text without any `{{` has no variables. */
  lemma NoBracesNoVariables(t: string)
    requires forall k :: !OccursAt("{{", t, k)
    ensures Extract(t) == []
  {
    forall x ensures x !in Extract(t) {
      ExtractIff(t, x);
      forall k | OccursAt(Placeholder(x), t, k) ensures OccursAt("{{", t, k) {
        assert t[k..k + 2] == Placeholder(x)[..2];
      }
    }
    EmptyIffNoMembers(Extract(t));
  }

  /** Characters other than `{` start no match: the scan walks over them. */
  lemma {:induction false} SkipPlainText(t: string, i: nat, j: nat)
    requires i <= j <= |t|
    requires forall m :: i <= m < j ==> t[m] != '{'
    ensures Matches(t, i) == Matches(t, j)
    decreases j - i
  {
    if i < j {
      SkipPlainText(t, i + 1, j);
    }
  }

  /** The scan at a placeholder captures its name and resumes after it. */
  lemma CapturePlaceholder(t: string, p: nat, name: string)
    requires IsIdentifier(name) && OccursAt(Placeholder(name), t, p)
    ensures p + |Placeholder(name)| <= |t|
    ensures Matches(t, p) == [name] + Matches(t, p + |Placeholder(name)|)
  {
    MatchAtPlaceholder(t, p, name);
  }
}
