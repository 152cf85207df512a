/** The type token `isResolvable` reads off a printed parameter.

    `ReflectionParameter::__toString` renders a parameter as, for instance,
    `Parameter #1 [ <optional> App\Mailer or NULL $mailer = NULL ]`, and the
    resolver applies the pattern  \[\s\<\w+?>\s([\w\\]+)  to that text: the
    leftmost `[`, one white-space character, `<`, word characters, `>`, one
    white-space character, then the longest run of word characters and
    backslashes, which is captured. An untyped parameter has `$name` right
    after `> `, so nothing is captured. */
module Signature {
  import opened Wrappers
  import Php

  /** `\s`: space, tab, line feed, vertical tab, form feed, carriage return. */
  predicate IsSpace(c: char) { c == ' ' || '\t' <= c <= '\r' }

  /** `\w` without the Unicode flag: ASCII letters, digits and underscore. */
  predicate IsWord(c: char) { 'a' <= c <= 'z' || 'A' <= c <= 'Z' || '0' <= c <= '9' || c == '_' }

  /** `[\w\\]`: the characters of a namespaced type name. */
  predicate IsTypeChar(c: char) { IsWord(c) || c == '\\' }

  /** Where the longest run of characters of a class that starts at `i` ends. */
  function RunEnd(s: string, i: nat, inClass: char -> bool): (j: nat)
    requires i <= |s|
    ensures i <= j <= |s|
    ensures forall m | i <= m < j :: inClass(s[m])
    ensures j == |s| || !inClass(s[j])
    decreases |s| - i
  {
    if i < |s| && inClass(s[i]) then RunEnd(s, i + 1, inClass) else i
  }

  /** A run is maximal in exactly one place. */
  lemma RunEndIs(s: string, i: nat, inClass: char -> bool, j: nat)
    requires i <= j <= |s|
    requires forall m | i <= m < j :: inClass(s[m])
    requires j == |s| || !inClass(s[j])
    ensures RunEnd(s, i, inClass) == j
  {
  }

  /** The capture of a match attempt that starts at `i`, if the attempt
      succeeds. `\w+?` is lazy, but `>` is not a word character, so the only
      length that can be followed by `>` is the whole run of word characters;
      the capture is greedy and nothing follows it, so it is the whole run of
      type characters. */
  function MatchAt(s: string, i: nat): Option<string>
    requires i <= |s|
  {
    if i + 3 <= |s| && s[i] == '[' && IsSpace(s[i + 1]) && s[i + 2] == '<' then
      var e := RunEnd(s, i + 3, IsWord);
      if i + 3 < e && e + 1 < |s| && s[e] == '>' && IsSpace(s[e + 1]) then
        var t := RunEnd(s, e + 2, IsTypeChar);
        if e + 2 < t then Some(s[e + 2 .. t]) else None
      else None
    else None
  }

  /** What the pattern means, written out: starting at `i`, `w` word
      characters between `<` and `>`, then the captured `tok`, which is a
      non-empty run of type characters that cannot be extended. */
  ghost predicate MatchesWith(s: string, i: nat, w: nat, tok: string) {
    var e := i + 3 + w;
    && 1 <= w && 1 <= |tok| && e + 2 + |tok| <= |s|
    && s[i] == '[' && IsSpace(s[i + 1]) && s[i + 2] == '<'
    && (forall m | i + 3 <= m < e :: IsWord(s[m]))
    && s[e] == '>' && IsSpace(s[e + 1])
    && s[e + 2 .. e + 2 + |tok|] == tok
    && (forall m | 0 <= m < |tok| :: IsTypeChar(tok[m]))
    && (e + 2 + |tok| == |s| || !IsTypeChar(s[e + 2 + |tok|]))
  }

  /** A successful attempt at `i` is a match of the written-out pattern. */
  lemma MatchAtSound(s: string, i: nat)
    requires i <= |s| && MatchAt(s, i).Some?
    ensures MatchesWith(s, i, RunEnd(s, i + 3, IsWord) - i - 3, MatchAt(s, i).value)
  {
    var tok := MatchAt(s, i).value;
    var e := RunEnd(s, i + 3, IsWord);
    var t := RunEnd(s, e + 2, IsTypeChar);
    assert tok == s[e + 2 .. t];
    assert forall m | 0 <= m < |tok| :: tok[m] == s[e + 2 + m];
  }

  /** A match of the written-out pattern at `i` is what the attempt at `i`
      captures. */
  lemma MatchAtComplete(s: string, i: nat, w: nat, tok: string)
    requires MatchesWith(s, i, w, tok)
    ensures i < |s| && MatchAt(s, i) == Some(tok)
  {
    var e := i + 3 + w;
    RunEndIs(s, i + 3, IsWord, e);
    assert forall m | e + 2 <= m < e + 2 + |tok| :: s[m] == tok[m - e - 2];
    RunEndIs(s, e + 2, IsTypeChar, e + 2 + |tok|);
  }

  /** The attempt at `i` captures `tok` exactly when the written-out pattern
      matches there with that capture. */
  lemma MatchAtMeaning(s: string, i: nat, tok: string)
    requires i <= |s|
    ensures MatchAt(s, i) == Some(tok) <==> exists w: nat :: MatchesWith(s, i, w, tok)
  {
    if MatchAt(s, i) == Some(tok) {
      MatchAtSound(s, i);
    }
    if w: nat :| MatchesWith(s, i, w, tok) {
      MatchAtComplete(s, i, w, tok);
    }
  }

  /** `preg_match` tries the start positions from left to right: the first
      position from `from` on where an attempt succeeds. */
  function FindMatch(s: string, from: nat): (r: Option<nat>)
    requires from <= |s|
    ensures r.Some? ==> from <= r.value < |s| && MatchAt(s, r.value).Some?
    ensures forall j | from <= j < (if r.Some? then r.value else |s|) :: MatchAt(s, j).None?
    decreases |s| - from
  {
    if from == |s| then None
    else if MatchAt(s, from).Some? then Some(from)
    else FindMatch(s, from + 1)
  }

  /** `$matches[1]` after `preg_match` on the printed parameter, or None when
      the pattern does not match anywhere. */
  function TypeToken(printed: string): Option<string> {
    match FindMatch(printed, 0)
    case None => None
    case Some(i) => MatchAt(printed, i)
  }

  /** The written-out pattern matches at `i` with capture `tok`, and at no
      earlier position with any capture. */
  ghost predicate LeftmostMatch(s: string, i: nat, tok: string) {
    && i <= |s|
    && (exists w: nat :: MatchesWith(s, i, w, tok))
    && forall j: nat, w: nat, t: string | j < i :: !MatchesWith(s, j, w, t)
  }

  /** The token is the capture of the leftmost match; there is none exactly
      when the pattern matches nowhere. */
  lemma TypeTokenMeaning(s: string, tok: string)
    ensures TypeToken(s) == Some(tok) <==> exists i: nat :: LeftmostMatch(s, i, tok)
    ensures TypeToken(s) == None <==> forall j: nat, w: nat, t: string :: !MatchesWith(s, j, w, t)
  {
    forall j: nat, w: nat, t: string | MatchesWith(s, j, w, t)
      ensures j < |s| && MatchAt(s, j) == Some(t)
    {
      MatchAtMeaning(s, j, t);
    }
    match FindMatch(s, 0)
    case None =>
    case Some(i) =>
      var t := MatchAt(s, i).value;
      MatchAtMeaning(s, i, t);
      if TypeToken(s) == Some(tok) {
        assert LeftmostMatch(s, i, tok);
      }
      forall i': nat | LeftmostMatch(s, i', tok) ensures TypeToken(s) == Some(tok) {
        assert i' == i;
      }
  }

  /** The parts of a parameter that `ReflectionParameter::__toString` prints. */
  datatype ParamShape = ParamShape(
    position: nat,
    optional: bool,
    typeName: Option<string>,
    allowsNull: bool,
    name: string,
    defaultText: string)

  function DigitChar(d: nat): char
    requires d < 10
  {
    ('0' as int + d) as char
  }

  /** The decimal form of a parameter position. */
  function Decimal(n: nat): (s: string)
    ensures |s| >= 1 && forall m | 0 <= m < |s| :: Php.IsDigit(s[m])
  {
    if n < 10 then [DigitChar(n)] else Decimal(n / 10) + [DigitChar(n % 10)]
  }

  /** The printed form: `Parameter #<n> [ <required> ` or `<optional> `, the
      type and `or NULL ` when there is one, `$name`, ` = <default>` for an
      optional parameter, and ` ]`. */
  function Render(p: ParamShape): string {
    "Parameter #" + Decimal(p.position) + " " + "[ <" + Requirement(p) + "> " + AfterTag(p)
  }

  function Requirement(p: ParamShape): string {
    if p.optional then "optional" else "required"
  }

  function AfterTag(p: ParamShape): string {
    TypePart(p) + NamePart(p)
  }

  function TypePart(p: ParamShape): string {
    match p.typeName
    case Some(t) => t + " " + (if p.allowsNull then "or NULL " else "")
    case None => ""
  }

  function NamePart(p: ParamShape): string {
    "$" + p.name + (if p.optional then " = " + p.defaultText else "") + " ]"
  }

  /** A run that starts after a fixed prefix ends where the run in the rest ends. */
  lemma RunEndShift(x: string, y: string, i: nat, inClass: char -> bool)
    requires i <= |y|
    ensures RunEnd(x + y, |x| + i, inClass) == |x| + RunEnd(y, i, inClass)
  {
    var e := RunEnd(y, i, inClass);
    assert forall m | |x| + i <= m < |x| + e :: (x + y)[m] == y[m - |x|];
    assert |x| + e < |x + y| ==> (x + y)[|x| + e] == y[e];
    RunEndIs(x + y, |x| + i, inClass, |x| + e);
  }

  /** When a text has a single `[`, only the attempt that starts there can
      succeed. */
  lemma TokenAtSingleBracket(s: string, k: nat)
    requires k < |s| && forall j | 0 <= j < |s| && j != k :: s[j] != '['
    ensures TypeToken(s) == MatchAt(s, k)
  {
    assert forall j | 0 <= j <= |s| && j != k :: MatchAt(s, j) == None;
  }

  /** When the attempt at `k` succeeds and every earlier one fails, the
      token is what the attempt at `k` captures. */
  lemma FirstMatchAt(s: string, k: nat)
    requires k < |s| && MatchAt(s, k).Some?
    requires forall j | 0 <= j < k :: MatchAt(s, j).None?
    ensures TypeToken(s) == MatchAt(s, k)
  {
  }

  /** An attempt at `i` whose `[`, blank, `<`, word characters up to `e`,
      `>` and blank are in place captures the run of type characters after
      them, if that run is not empty. */
  lemma MatchAtLaidOut(s: string, i: nat, e: nat)
    requires i + 3 < e && e + 1 < |s|
    requires s[i] == '[' && IsSpace(s[i + 1]) && s[i + 2] == '<'
    requires forall m | i + 3 <= m < e :: IsWord(s[m])
    requires s[e] == '>' && IsSpace(s[e + 1])
    ensures MatchAt(s, i) == var t := RunEnd(s, e + 2, IsTypeChar); if e + 2 < t then Some(s[e + 2 .. t]) else None
  {
    RunEndIs(s, i + 3, IsWord, e);
  }

  /** The attempt at the `[` of `[ <word> ` captures the run of type
      characters that comes next, if that run is not empty. */
  lemma MatchAtTag(pre: string, word: string, rest: string)
    requires 1 <= |word| && forall m | 0 <= m < |word| :: IsWord(word[m])
    ensures MatchAt(pre + "[ <" + word + "> " + rest, |pre|)
         == var t := RunEnd(rest, 0, IsTypeChar); if 0 < t then Some(rest[..t]) else None
  {
    var head := pre + "[ <" + word + "> ";
    var k := |pre|;
    var e := k + 3 + |word|;
    assert head[k] == '[' && head[k + 1] == ' ' && head[k + 2] == '<';
    assert head[e] == '>' && head[e + 1] == ' ';
    assert forall m | k + 3 <= m < e :: head[m] == word[m - k - 3];
    MatchAtBeforeRest(head, rest, k, e);
  }

  /** The same, for a text split into a head that ends with the tag and the
      rest. */
  lemma MatchAtBeforeRest(head: string, rest: string, k: nat, e: nat)
    requires k + 3 < e && |head| == e + 2
    requires head[k] == '[' && IsSpace(head[k + 1]) && head[k + 2] == '<'
    requires forall m | k + 3 <= m < e :: IsWord(head[m])
    requires head[e] == '>' && IsSpace(head[e + 1])
    ensures MatchAt(head + rest, k)
         == var t := RunEnd(rest, 0, IsTypeChar); if 0 < t then Some(rest[..t]) else None
  {
    var s := head + rest;
    assert forall m | 0 <= m < |head| :: s[m] == head[m];
    MatchAtLaidOut(s, k, e);
    RunEndShift(head, rest, 0, IsTypeChar);
    var t := RunEnd(rest, 0, IsTypeChar);
    assert s[e + 2 .. e + 2 + t] == rest[..t];
  }

  /** A text with two tags and no other `[`, where the first tag is
      followed by a character outside `[\w\\]`: the attempt at the first
      tag fails, so the token is the run of type characters after the
      second. */
  lemma TokenAfterFailedTag(pre: string, tag: string, after: string, mid: string, word: string, rest: string)
    requires after == mid + "[ <" + word + "> " + rest
    requires NoBracket(pre) && NoBracket(mid)
    requires 1 <= |tag| && forall m | 0 <= m < |tag| :: IsWord(tag[m])
    requires 1 <= |word| && forall m | 0 <= m < |word| :: IsWord(word[m])
    requires 1 <= |mid| && !IsTypeChar(mid[0])
    requires 1 <= |rest| && IsTypeChar(rest[0])
    ensures TypeToken(pre + "[ <" + tag + "> " + after) == Some(rest[..RunEnd(rest, 0, IsTypeChar)])
  {
    var head := pre + "[ <" + tag + "> " + mid;
    var tail := "[ <" + word + "> " + rest;
    SplitAtSecondTag(pre, tag, after, mid, word, rest);
    Regroup(head, word, rest);
    MatchAtTag(head, word, rest);
    FirstTagFails(pre, tag, mid, tail);
    FirstMatchAt(head + tail, |head|);
  }

  lemma SplitAtSecondTag(pre: string, tag: string, after: string, mid: string, word: string, rest: string)
    requires after == mid + "[ <" + word + "> " + rest
    ensures pre + "[ <" + tag + "> " + after == (pre + "[ <" + tag + "> " + mid) + ("[ <" + word + "> " + rest)
  {
  }

  lemma Regroup(head: string, word: string, rest: string)
    ensures head + "[ <" + word + "> " + rest == head + ("[ <" + word + "> " + rest)
  {
  }

  /** Before `mid`, the only `[` is the tag's own, and the attempt there
      fails because `mid` starts with a character outside `[\w\\]`. */
  lemma FirstTagFails(pre: string, tag: string, mid: string, tail: string)
    requires NoBracket(pre) && NoBracket(mid)
    requires 1 <= |tag| && forall m | 0 <= m < |tag| :: IsWord(tag[m])
    requires 1 <= |mid| && !IsTypeChar(mid[0])
    ensures var s := pre + "[ <" + tag + "> " + mid + tail;
      forall j | 0 <= j < |pre + "[ <" + tag + "> " + mid| :: MatchAt(s, j).None?
  {
    var after := mid + tail;
    var head := pre + "[ <" + tag + "> " + mid;
    var s := head + tail;
    assert s == pre + "[ <" + tag + "> " + after;
    RunEndIs(after, 0, IsTypeChar, 0);
    MatchAtTag(pre, tag, after);
    BracketOnlyAtTag(pre, tag, mid);
    forall j | 0 <= j < |head| && j != |pre| ensures s[j] != '[' {
      assert s[j] == head[j];
    }
  }

  lemma BracketOnlyAtTag(pre: string, tag: string, mid: string)
    requires NoBracket(pre) && NoBracket(mid)
    requires forall m | 0 <= m < |tag| :: IsWord(tag[m])
    ensures var head := pre + "[ <" + tag + "> " + mid;
      forall j | 0 <= j < |head| && j != |pre| :: head[j] != '['
  {
    var inner := " <" + tag + "> " + mid;
    assert NoBracket(tag);
    NoBracketConcat(" <", tag);
    NoBracketConcat(" <" + tag, "> ");
    NoBracketConcat(" <" + tag + "> ", mid);
    var head := pre + "[" + inner;
    assert head == pre + "[ <" + tag + "> " + mid;
    forall j | 0 <= j < |head| && j != |pre| ensures head[j] != '[' {
      if j < |pre| {
        assert head[j] == pre[j];
      } else {
        assert head[j] == inner[j - |pre| - 1];
      }
    }
  }

  /** In a text with a single `[`, followed by ` <word> `, the token is the
      run of type characters that comes next, if that run is not empty. */
  lemma {:induction false} TokenAfterTag(pre: string, word: string, rest: string)
    requires NoBracket(pre) && NoBracket(rest)
    requires 1 <= |word| && forall m | 0 <= m < |word| :: IsWord(word[m])
    ensures TypeToken(pre + "[ <" + word + "> " + rest)
         == var t := RunEnd(rest, 0, IsTypeChar); if 0 < t then Some(rest[..t]) else None
  {
    var head := pre + "[ <" + word + "> ";
    var s := head + rest;
    var k := |pre|;
    forall j | 0 <= j < |s| && j != k ensures s[j] != '[' {
      if j < k {
        assert s[j] == pre[j];
      } else if j < |head| {
        assert k + 3 <= j < k + 3 + |word| ==> s[j] == word[j - k - 3];
      } else {
        assert s[j] == rest[j - |head|];
      }
    }
    TokenAtSingleBracket(s, k);
    MatchAtTag(pre, word, rest);
  }

  predicate NoBracket(s: string) {
    forall m | 0 <= m < |s| :: s[m] != '['
  }

  lemma NoBracketConcat(x: string, y: string)
    requires NoBracket(x) && NoBracket(y)
    ensures NoBracket(x + y)
  {
    assert forall m | |x| <= m < |x + y| :: (x + y)[m] == y[m - |x|];
  }

  lemma PrefixHasNoBracket(n: nat)
    ensures NoBracket("Parameter #" + Decimal(n) + " ")
  {
    var digits := Decimal(n);
    assert NoBracket(digits);
    NoBracketConcat("Parameter #", digits);
    NoBracketConcat("Parameter #" + digits, " ");
  }

  lemma NamePartHasNoBracket(p: ParamShape)
    requires NoBracket(p.name) && NoBracket(p.defaultText)
    ensures NoBracket(NamePart(p))
  {
    var dflt := if p.optional then " = " + p.defaultText else "";
    NoBracketConcat(" = ", p.defaultText);
    NoBracketConcat("$", p.name);
    NoBracketConcat("$" + p.name, dflt);
    NoBracketConcat("$" + p.name + dflt, " ]");
  }

  /** What follows the tag starts with the type, ended by a blank, or with `$`. */
  lemma TypeRunAfterTag(p: ParamShape)
    requires p.typeName.Some? ==> forall m | 0 <= m < |p.typeName.value| :: IsTypeChar(p.typeName.value[m])
    requires NoBracket(p.name) && NoBracket(p.defaultText)
    ensures NoBracket(AfterTag(p))
    ensures var t := RunEnd(AfterTag(p), 0, IsTypeChar);
            match p.typeName
            case Some(name) => t == |name| && AfterTag(p)[..t] == name
            case None => t == 0
  {
    var rest := AfterTag(p);
    NamePartHasNoBracket(p);
    match p.typeName {
      case None =>
        assert rest == NamePart(p);
        RunEndIs(rest, 0, IsTypeChar, 0);
      case Some(t) =>
        var nullPart := if p.allowsNull then "or NULL " else "";
        assert NoBracket(t);
        NoBracketConcat(t, " ");
        NoBracketConcat(t + " ", nullPart);
        NoBracketConcat(TypePart(p), NamePart(p));
        assert forall m | 0 <= m < |t| :: rest[m] == t[m];
        assert rest[|t|] == ' ';
        RunEndIs(rest, 0, IsTypeChar, |t|);
        assert rest[..|t|] == t;
    }
  }

  /** Reading the token back from a printed parameter gives its type, and
      nothing for an untyped one, provided neither the name nor the default
      text contains a `[`. */
  lemma {:induction false} TokenOfRendered(p: ParamShape)
    requires p.typeName.Some? ==> 1 <= |p.typeName.value|
    requires p.typeName.Some? ==> forall m | 0 <= m < |p.typeName.value| :: IsTypeChar(p.typeName.value[m])
    requires NoBracket(p.name) && NoBracket(p.defaultText)
    ensures TypeToken(Render(p)) == p.typeName
  {
    PrefixHasNoBracket(p.position);
    TypeRunAfterTag(p);
    TokenAfterTag("Parameter #" + Decimal(p.position) + " ", Requirement(p), AfterTag(p));
  }
}
