/** String operations the server relies on: JavaScript's global
    `String.prototype.replace` with a fixed, group-free pattern, its
    first-occurrence form, and a split/join reference definition that
    characterises what a global replacement does. */
module Strings {

  datatype Option<T> = None | Some(value: T)

  /** `t` occurs somewhere in `s` (as a contiguous piece). */
  predicate Contains(s: string, t: string)
    decreases |s|
  {
    t <= s || (s != [] && Contains(s[1..], t))
  }

  /** Expansion of a replacement string as JavaScript's GetSubstitution does it
      for a pattern with no capture groups: `$$` gives `$`, `$&` the matched
      text, `` $` `` the text before the match, `$'` the text after it, and
      every other `$` (including `$1`, `$<`) stays literal. */
  function Expand(repl: string, matched: string, before: string, after: string): (r: string)
    decreases |repl|
  {
    if repl == [] then []
    else if repl[0] == '$' && |repl| >= 2 && repl[1] in "$&`'" then
      var piece :=
        if repl[1] == '$' then "$"
        else if repl[1] == '&' then matched
        else if repl[1] == '`' then before
        else after;
      piece + Expand(repl[2..], matched, before, after)
    else [repl[0]] + Expand(repl[1..], matched, before, after)
  }

  /** A replacement text without `$` is inserted verbatim. */
  lemma ExpandPlain(repl: string, matched: string, before: string, after: string)
    requires '$' !in repl
    ensures Expand(repl, matched, before, after) == repl
  {
  }

  /** `s.replace(/token/g, repl)`: scan `s` left to right, replacing each
      non-overlapping occurrence of `token`. The scan has consumed `done` and
      has `rest` left; the inserted text is never scanned again. */
  function ReplaceScan(done: string, rest: string, token: string, repl: string): (r: string)
    requires token != []
    decreases |rest|
  {
    if rest == [] then []
    else if token <= rest then
      Expand(repl, token, done, rest[|token|..])
        + ReplaceScan(done + token, rest[|token|..], token, repl)
    else [rest[0]] + ReplaceScan(done + [rest[0]], rest[1..], token, repl)
  }

  function ReplaceAll(s: string, token: string, repl: string): (r: string)
    requires token != []
  {
    ReplaceScan([], s, token, repl)
  }

  /** Reference definition: the pieces of `s` between the occurrences of
      `token` found by a left-to-right scan. */
  function Split(s: string, token: string): (parts: seq<string>)
    requires token != []
    ensures |parts| >= 1
    decreases |s|
  {
    if s == [] then [[]]
    else if token <= s then [[]] + Split(s[|token|..], token)
    else
      var tail := Split(s[1..], token);
      [[s[0]] + tail[0]] + tail[1..]
  }

  /** `parts.join(sep)` */
  function Join(parts: seq<string>, sep: string): (s: string)
    decreases |parts|
  {
    if parts == [] then []
    else if |parts| == 1 then parts[0]
    else parts[0] + sep + Join(parts[1..], sep)
  }

  lemma JoinCons(head: string, parts: seq<string>, sep: string)
    requires |parts| >= 1
    ensures Join([head] + parts, sep) == head + sep + Join(parts, sep)
  {
    assert ([head] + parts)[1..] == parts;
  }

  lemma JoinConsHead(c: char, parts: seq<string>, sep: string)
    requires |parts| >= 1
    ensures Join([[c] + parts[0]] + parts[1..], sep) == [c] + Join(parts, sep)
  {
    var p := [[c] + parts[0]] + parts[1..];
    if |parts| > 1 {
      assert p[1..] == parts[1..];
    }
  }

  /** The first piece of a split is a prefix of the split string. */
  lemma {:induction false} SplitHeadIsPrefix(s: string, token: string)
    requires token != []
    ensures Split(s, token)[0] <= s
    decreases |s|
  {
    if s != [] && !(token <= s) {
      SplitHeadIsPrefix(s[1..], token);
    }
  }

  lemma PrefixTransitive(a: string, b: string, c: string)
    requires a <= b && b <= c
    ensures a <= c
  {
    assert c[..|a|] == b[..|a|];
  }

  /** Joining the pieces back with the token itself gives the original text:
      the non-token text of `s` is kept, in order. */
  lemma {:induction false} JoinSplit(s: string, token: string)
    requires token != []
    ensures Join(Split(s, token), token) == s
    decreases |s|
  {
    if s == [] {
    } else if token <= s {
      var after := s[|token|..];
      JoinSplit(after, token);
      assert Split(s, token) == [[]] + Split(after, token);
      JoinCons([], Split(after, token), token);
      assert s == [] + token + after;
    } else {
      var tail := Split(s[1..], token);
      JoinSplit(s[1..], token);
      assert Split(s, token) == [[s[0]] + tail[0]] + tail[1..];
      JoinConsHead(s[0], tail, token);
      assert Join(Split(s, token), token) == [s[0]] + s[1..];
    }
  }

  lemma ContainsCons(c: char, s: string, t: string)
    requires !(t <= [c] + s) && !Contains(s, t)
    ensures !Contains([c] + s, t)
  {
    assert ([c] + s)[1..] == s;
  }

  /** No piece of a split contains the token: every occurrence was cut out. */
  lemma {:induction false} SplitPiecesTokenFree(s: string, token: string)
    requires token != []
    ensures forall k :: 0 <= k < |Split(s, token)| ==> !Contains(Split(s, token)[k], token)
    decreases |s|
  {
    if s == [] {
    } else if token <= s {
      SplitPiecesTokenFree(s[|token|..], token);
    } else {
      var tail := Split(s[1..], token);
      SplitPiecesTokenFree(s[1..], token);
      SplitHeadIsPrefix(s[1..], token);
      var head := [s[0]] + tail[0];
      assert head <= s;
      if token <= head {
        PrefixTransitive(token, head, s);
      }
      ContainsCons(s[0], tail[0], token);
      assert forall k :: 1 <= k < |Split(s, token)| ==> Split(s, token)[k] == tail[k];
    }
  }

  lemma {:induction false} ReplaceScanIsJoin(done: string, rest: string, token: string, repl: string)
    requires token != [] && '$' !in repl
    ensures ReplaceScan(done, rest, token, repl) == Join(Split(rest, token), repl)
    decreases |rest|
  {
    if rest == [] {
    } else if token <= rest {
      var after := rest[|token|..];
      ExpandPlain(repl, token, done, after);
      ReplaceScanIsJoin(done + token, after, token, repl);
      assert Split(rest, token) == [[]] + Split(after, token);
      JoinCons([], Split(after, token), repl);
    } else {
      var tail := Split(rest[1..], token);
      ReplaceScanIsJoin(done + [rest[0]], rest[1..], token, repl);
      assert Split(rest, token) == [[rest[0]] + tail[0]] + tail[1..];
      JoinConsHead(rest[0], tail, repl);
    }
  }

  /** A global replacement by a `$`-free text puts `repl` exactly where the
      token occurrences were and leaves every other piece of text in place:
      together with JoinSplit and SplitPiecesTokenFree, every occurrence is
      replaced and nothing else changes. */
  lemma ReplaceAllIsJoin(s: string, token: string, repl: string)
    requires token != [] && '$' !in repl
    ensures ReplaceAll(s, token, repl) == Join(Split(s, token), repl)
  {
    ReplaceScanIsJoin([], s, token, repl);
  }

  lemma {:induction false} ReplaceScanAbsent(done: string, rest: string, token: string, repl: string)
    requires token != [] && !Contains(rest, token)
    ensures ReplaceScan(done, rest, token, repl) == rest
    decreases |rest|
  {
    if rest != [] {
      ReplaceScanAbsent(done + [rest[0]], rest[1..], token, repl);
    }
  }

  /** Text without the token comes back unchanged, whatever the replacement. */
  lemma ReplaceAllAbsent(s: string, token: string, repl: string)
    requires token != [] && !Contains(s, token)
    ensures ReplaceAll(s, token, repl) == s
  {
    ReplaceScanAbsent([], s, token, repl);
  }

  /** A text that is exactly the token becomes the replacement: the inserted
      text is not scanned again, even if it holds the token itself. */
  lemma ReplaceAllWhole(token: string, repl: string)
    requires token != [] && '$' !in repl
    ensures ReplaceAll(token, token, repl) == repl
  {
    var after := token[|token|..];
    assert after == [] && token <= token;
    ExpandPlain(repl, token, [], after);
    assert ReplaceScan([] + token, after, token, repl) == [];
  }

  /** `t` occurs at position `i` of `s` and at no earlier position. */
  predicate FirstAt(s: string, t: string, i: int) {
    && 0 <= i <= |s| - |t| && t <= s[i..]
    && forall j :: 0 <= j < i ==> !(t <= s[j..])
  }

  /** `s.replace(t, "")` with a string pattern: only the first occurrence
      of `t` is removed. */
  function RemoveFirst(s: string, t: string): (r: string)
    requires t != []
    ensures !Contains(s, t) ==> r == s
    ensures Contains(s, t) ==> |r| == |s| - |t|
    ensures t <= s ==> r == s[|t|..]
    decreases |s|
  {
    if t <= s then s[|t|..]
    else if s == [] then []
    else [s[0]] + RemoveFirst(s[1..], t)
  }

  /** A text holding `t` holds it at a first position. */
  lemma {:induction false} ContainsFirst(s: string, t: string)
    requires Contains(s, t)
    ensures exists i :: FirstAt(s, t, i)
    decreases |s|
  {
    if t <= s {
      assert s[0..] == s;
      assert FirstAt(s, t, 0);
    } else {
      ContainsFirst(s[1..], t);
      var i :| FirstAt(s[1..], t, i);
      assert s[i + 1..] == s[1..][i..];
      forall j | 0 <= j < i + 1
        ensures !(t <= s[j..])
      {
        if j > 0 {
          assert s[j..] == s[1..][j - 1..];
        }
      }
      assert FirstAt(s, t, i + 1);
    }
  }

  /** The text before the first occurrence and the text after it are kept,
      and only that occurrence is removed. */
  lemma {:induction false} RemoveFirstAt(s: string, t: string, i: int)
    requires t != [] && FirstAt(s, t, i)
    ensures RemoveFirst(s, t) == s[..i] + s[i + |t|..]
    decreases i
  {
    if i > 0 {
      assert s[0..] == s;
      assert !(t <= s);
      var tail := s[1..];
      assert tail[i - 1..] == s[i..];
      forall j | 0 <= j < i - 1
        ensures !(t <= tail[j..])
      {
        assert tail[j..] == s[j + 1..];
      }
      RemoveFirstAt(tail, t, i - 1);
      assert s[..i] == [s[0]] + tail[..i - 1];
      assert tail[i - 1 + |t|..] == s[i + |t|..];
    }
  }

  /** `replace` with a string pattern removes the first occurrence: a text
      holding `t` is its part before the first `t` followed by its part after. */
  lemma RemoveFirstOccurrence(s: string, t: string)
    requires t != [] && Contains(s, t)
    ensures exists i :: FirstAt(s, t, i) && RemoveFirst(s, t) == s[..i] + s[i + |t|..]
  {
    ContainsFirst(s, t);
    var i :| FirstAt(s, t, i);
    RemoveFirstAt(s, t, i);
  }

  /** A token delimited by a unique opening and closing character, like the
      `{%NAME%}` placeholders. */
  predicate Delimited(t: string) {
    && |t| >= 2 && t[0] == '{' && t[|t| - 1] == '}'
    && forall i :: 0 < i < |t| - 1 ==> t[i] != '{' && t[i] != '}'
  }

  lemma {:induction false} ContainsHead(s: string, t: string)
    requires t != [] && Contains(s, t)
    ensures t[0] in s
    decreases |s|
  {
    if !(t <= s) {
      ContainsHead(s[1..], t);
    }
  }

  lemma DelimitedPrefix(a: string, b: string)
    requires Delimited(a) && Delimited(b) && b <= a
    ensures a == b
  {
    var last := |b| - 1;
    assert a[last] == '}';
  }

  /** Two delimited tokens never occur inside one another unless equal. */
  lemma DelimitedNoNesting(a: string, b: string)
    requires Delimited(a) && Delimited(b) && a != b
    ensures !Contains(a, b)
  {
    if b <= a {
      DelimitedPrefix(a, b);
    } else if Contains(a[1..], b) {
      ContainsHead(a[1..], b);
    }
  }
}
