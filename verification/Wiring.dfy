/** Which make targets `make test` reaches: a search over rules kept as text. */
module Wiring {
  import opened Reach

  // ---- The prerequisites named in a rule ---------------------------------------------------

  /** A whitespace character. */
  predicate Space(c: char) {
    var k := c as int;
    || 0x9 <= k <= 0xD || 0x1C <= k <= 0x20 || k == 0x85 || k == 0xA0 || k == 0x1680
    || 0x2000 <= k <= 0x200A || k in {0x2028, 0x2029, 0x202F, 0x205F, 0x3000}
  }

  /** The length of the run of spaces, or of other characters, at the start of s. */
  function Run(s: string, spaces: bool): (n: nat)
    ensures n <= |s| && (forall i :: 0 <= i < n ==> Space(s[i]) == spaces)
    ensures n < |s| ==> Space(s[n]) != spaces
  {
    if s == "" || Space(s[0]) != spaces then 0 else 1 + Run(s[1..], spaces)
  }

  /** The text split at every run of spaces. */
  function Split(s: string): seq<string>
    decreases |s|
  {
    if Run(s, false) == |s| then [s[..Run(s, false)]] else [s[..Run(s, false)]] + Split(s[Behind(s)..])
  }

  /** Where the spaces behind the first word end. */
  function Behind(s: string): (m: nat)
    requires Run(s, false) < |s|
    ensures Run(s, false) < m <= |s|
  {
    var n := Run(s, false);
    assert s[n..][0] == s[n];
    n + Run(s[n..], true)
  }

  /** A stretch of s without spaces that has a space, or an end of s, on either side. */
  predicate WordAt(s: string, i: nat, j: nat) {
    && i < j <= |s| && (forall k :: i <= k < j ==> !Space(s[k]))
    && (i == 0 || Space(s[i - 1])) && (j == |s| || Space(s[j]))
  }

  ghost predicate IsWord(s: string, w: string) { exists i: nat, j: nat :: WordAt(s, i, j) && w == s[i..j] }

  /** A word starts at the beginning, or lies after the first word and the spaces behind it. */
  lemma WordPlace(s: string, i: nat, j: nat)
    requires WordAt(s, i, j)
    ensures var n := Run(s, false); (i == 0 && j == n) || (n < |s| && i >= Behind(s))
  {
    hide Space;
    var n := Run(s, false);
    if i == 0 {
      assert !Space(s[0]);
    } else {
      assert n <= i - 1 < i && !Space(s[i]);
      assert s[n..][i - n] == s[i];
    }
  }

  /** Shifting a word by the text before it. */
  lemma WordShift(s: string, m: nat, i: nat, j: nat)
    requires m <= i && m <= |s| && (i == m ==> m == 0 || Space(s[m - 1]))
    ensures WordAt(s[m..], i - m, j) <==> WordAt(s, i, j + m)
  {
    var r := s[m..];
    assert forall k :: m <= k < |s| ==> s[k] == r[k - m];
    assert forall k :: 0 <= k < |r| ==> r[k] == s[k + m];
  }

  /** Splitting finds the words of a text, and nothing else but empty strings. */
  lemma {:induction false} SplitFindsWords(s: string, w: string)
    requires w != ""
    ensures w in Split(s) <==> IsWord(s, w)
    decreases |s|
  {
    hide Space, Run, Split, WordAt, IsWord, Behind;
    var n := Run(s, false);
    var m := if n == |s| then n else Behind(s);
    SplitStep(s);
    if n < |s| {
      SplitFindsWords(s[m..], w);
      if IsWord(s[m..], w) {
        WordLater(s, w, m);
      }
    }
    if IsWord(s, w) {
      SplitHas(s, w, n, m);
    }
  }

  /** The first word, the spaces behind it, and the rest. */
  lemma SplitStep(s: string)
    ensures var n := Run(s, false);
            var m := if n == |s| then n else Behind(s);
            && (n < |s| ==> n < m <= |s| && Space(s[m - 1]))
            && Split(s) == (if n == |s| then [s[..n]] else [s[..n]] + Split(s[m..]))
            && (s[..n] != "" ==> IsWord(s, s[..n]))
  {
    hide Space, WordAt, IsWord, Split, Run, Behind;
    SplitUnfolds(s);
    if Run(s, false) < |s| {
      SpaceBehind(s);
    }
    if Run(s, false) > 0 {
      FirstWord(s);
    }
  }

  lemma SplitUnfolds(s: string)
    ensures var n := Run(s, false);
            Split(s) == if n == |s| then [s[..n]] else [s[..n]] + Split(s[Behind(s)..])
  {
    hide Run, Space, Behind;
  }

  lemma SpaceBehind(s: string)
    requires Run(s, false) < |s|
    ensures Space(s[Behind(s) - 1])
  {
    hide Run, Space;
    var n := Run(s, false);
    var r := s[n..];
    var k := Run(r, true);
    assert r[0] == s[n];
    assert 0 < k;
    assert r[k - 1] == s[n + (k - 1)];
  }

  lemma FirstWord(s: string)
    requires Run(s, false) > 0
    ensures IsWord(s, s[..Run(s, false)])
  {
    hide Run, Space;
    var n := Run(s, false);
    assert WordAt(s, 0, n) && s[..n] == s[0..n];
  }

  lemma SplitHas(s: string, w: string, n: nat, m: nat)
    requires IsWord(s, w) && n == Run(s, false) && m == if n == |s| then n else Behind(s)
    requires n < |s| ==> m > 0 && Space(s[m - 1])
    ensures w == s[..n] || (n < |s| && IsWord(s[m..], w))
  {
    var i: nat, j: nat :| WordAt(s, i, j) && w == s[i..j];
    WordPlace(s, i, j);
    hide WordAt, Space, Run;
    if i > 0 || j != n {
      WordInRest(s, m, i, j);
    }
  }

  lemma WordInRest(s: string, m: nat, i: nat, j: nat)
    requires WordAt(s, i, j) && 0 < m <= i && Space(s[m - 1])
    ensures IsWord(s[m..], s[i..j])
  {
    WordShift(s, m, i, j - m);
    SliceShift(s, m, i, j);
    hide Space;
    assert WordAt(s[m..], i - m, j - m);
  }

  lemma SliceShift(s: string, m: nat, i: nat, j: nat)
    requires m <= i <= j <= |s|
    ensures s[m..][i - m..j - m] == s[i..j]
  {
  }

  lemma WordLater(s: string, w: string, m: nat)
    requires 0 < m <= |s| && Space(s[m - 1]) && IsWord(s[m..], w)
    ensures IsWord(s, w)
  {
    var i: nat, j: nat :| WordAt(s[m..], i, j) && w == s[m..][i..j];
    WordShift(s, m, i + m, j);
    SliceShift(s, m, i + m, j + m);
  }

  /** A word without its backslashes. */
  function Plain(w: string): string { if w == "" then "" else Kept(w[0]) + Plain(w[1..]) }

  function Kept(c: char): string { if c == '\\' then "" else [c] }

  /** Dropping backslashes goes part by part. */
  lemma {:induction false} PlainConcat(v: string, w: string)
    ensures Plain(v + w) == Plain(v) + Plain(w)
  {
    hide Kept;
    if v == "" {
      assert v + w == w;
    } else {
      PlainConcat(v[1..], w);
      assert (v + w)[1..] == v[1..] + w;
      Regroup(Kept(v[0]), Plain(v[1..]), Plain(w));
    }
  }

  lemma Regroup(a: string, b: string, c: string)
    ensures a + (b + c) == a + b + c
  {
  }

  /** No backslash is left, and nothing else is dropped. */
  lemma {:induction false} PlainIs(v: string)
    ensures '\\' !in Plain(v) && ('\\' !in v ==> Plain(v) == v) && Plain("\\") == ""
  {
    if v != "" {
      PlainIs(v[1..]);
      assert v == [v[0]] + v[1..];
    }
  }

  /** Blanks, tabs and line ends separate words; printable ASCII characters do not. */
  lemma SpaceSamples(c: char)
    ensures Space(' ') && Space('\t') && Space('\n') && Space('\r')
    ensures 0x20 < c as int < 0x7F ==> !Space(c)
  {
  }

  type Rules = map<string, string>

  function Text(rules: Rules, t: string): string { if t in rules then rules[t] else "" }

  /** The rule of t names p, which has a rule of its own. */
  ghost predicate Needs(rules: Rules, t: string, p: string) {
    p != "" && p in rules && exists w :: IsWord(Text(rules, t), w) && Plain(w) == p
  }

  ghost function Edges(rules: Rules): (string, string) -> bool { (t: string, p: string) => Needs(rules, t, p) }

  ghost predicate Named(words: seq<string>, p: string) { exists w :: w in words && Plain(w) == p }

  lemma NamedMore(words: seq<string>, i: nat, p: string)
    requires i < |words|
    ensures Named(words[..i + 1], p) <==> Named(words[..i], p) || Plain(words[i]) == p
  {
    var more := words[..i + 1];
    assert more == words[..i] + [words[i]];
    if Named(more, p) {
      var w :| w in more && Plain(w) == p;
    }
    assert words[i] in more;
  }

  lemma NeedsSplit(rules: Rules, t: string, p: string)
    ensures Needs(rules, t, p) <==> p != "" && p in rules && Named(Split(Text(rules, t)), p)
  {
    var s := Text(rules, t);
    if Needs(rules, t, p) {
      var w :| IsWord(s, w) && Plain(w) == p;
      SplitFindsWords(s, w);
    }
    if p != "" && p in rules && Named(Split(s), p) {
      var w :| w in Split(s) && Plain(w) == p;
      SplitFindsWords(s, w);
    }
  }

  // ---- The search -----------------------------------------------------------------------------

  /** Nothing was missed: a prerequisite of a seen target is seen or waits on the stack. */
  ghost predicate Sought(rules: Rules, seen: set<string>, stack: seq<string>) {
    forall t, p :: t in seen && Edges(rules)(t, p) ==> p in seen || p in stack
  }

  /** Nothing was made up. */
  ghost predicate AllReached(rules: Rules, root: string, seen: set<string>, stack: seq<string>) {
    && (forall t :: t in seen || t in stack ==> Reaches(Edges(rules), root, t) && t in rules.Keys + {root})
    && (root in seen || root in stack)
  }

  lemma SearchDone(rules: Rules, root: string, seen: set<string>)
    requires Sought(rules, seen, []) && AllReached(rules, root, seen, [])
    ensures forall t :: t in seen <==> Reaches(Edges(rules), root, t)
  {
    forall t | Reaches(Edges(rules), root, t)
      ensures t in seen
    {
      ClosedHoldsAll(Edges(rules), seen, root, t);
    }
  }

  /** The root, and every target that a chain of prerequisites leads to from it. */
  method Reachable(rules: Rules, root: string) returns (seen: set<string>)
    ensures forall t :: t in seen <==> Reaches(Edges(rules), root, t)
  {
    seen := {};
    var stack := [root];
    ReachesSelf(Edges(rules), root);
    while stack != []
      invariant Sought(rules, seen, stack) && AllReached(rules, root, seen, stack)
      decreases rules.Keys + {root} - seen, |stack|
    {
      var t := stack[|stack| - 1];
      ghost var before := stack;
      stack := stack[..|stack| - 1];
      assert before == stack + [t];
      if t !in seen {
        seen := seen + {t};
        stack := PushNeeds(rules, seen, stack, t);
        Visited(rules, root, seen, before, stack, t);
        assert rules.Keys + {root} - seen < rules.Keys + {root} - (seen - {t});
      }
    }
    SearchDone(rules, root, seen);
  }

  lemma Visited(rules: Rules, root: string, seen: set<string>, before: seq<string>, stack: seq<string>, t: string)
    requires t in seen && before != [] && before[|before| - 1] == t
    requires Sought(rules, seen - {t}, before) && AllReached(rules, root, seen - {t}, before)
    requires forall p :: p in stack <==> p in before[..|before| - 1] || (Needs(rules, t, p) && p !in seen)
    ensures Sought(rules, seen, stack) && AllReached(rules, root, seen, stack)
  {
    var rest := before[..|before| - 1];
    assert before == rest + [t];
    forall p | p in stack
      ensures Reaches(Edges(rules), root, p) && p in rules.Keys + {root}
    {
      if p !in rest {
        assert t in before;
        StepAfter(Edges(rules), root, t, p);
      }
    }
  }

  /** Pushes the prerequisites of t that were not seen yet. */
  method PushNeeds(rules: Rules, seen: set<string>, rest: seq<string>, t: string) returns (stack: seq<string>)
    ensures forall p :: p in stack <==> p in rest || (Needs(rules, t, p) && p !in seen)
  {
    stack := rest;
    var words := Split(Text(rules, t));
    for i := 0 to |words|
      invariant forall p :: p in stack <==>
                  p in rest || (p != "" && p !in seen && p in rules && Named(words[..i], p))
    {
      forall q
        ensures Named(words[..i + 1], q) <==> Named(words[..i], q) || Plain(words[i]) == q
      {
        NamedMore(words, i, q);
      }
      hide Named, Plain;
      var p := Plain(words[i]);
      if p != "" && p !in seen && p in rules {
        stack := stack + [p];
      }
    }
    assert words[..|words|] == words;
    forall p
      ensures Needs(rules, t, p) <==> p != "" && p in rules && Named(words, p)
    {
      NeedsSplit(rules, t, p);
    }
  }

  /** Test targets that no chain of prerequisites from `test` leads to. */
  method Orphans(rules: Rules) returns (orphans: set<string>)
    ensures forall t :: t in orphans <==> t in rules && "test_" <= t && !Reaches(Edges(rules), "test", t)
  {
    var reach := Reachable(rules, "test");
    orphans := (set t | t in rules && "test_" <= t) - reach;
  }
}
