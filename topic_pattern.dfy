/**
 * The topic patterns of `PubSub::Multicast`.
 *
 * A pattern is turned into a regular expression in two steps: every `+` is
 * replaced by `\w+` (the private helper `replace`), and a `#` in the last
 * position becomes `.+`. The expression must then match a whole topic.
 * Only the fragment of ECMAScript regular expressions that this translation
 * produces is modelled: single atoms (a literal character, `\w`, `.`), each
 * optionally followed by the quantifier `+`.
 */
module TopicPattern {
  import opened Wrappers

  // ---------------------------------------------------------------- replace

  /** `s` holds `o` starting at index `i`. */
  predicate OccursAt(s: string, o: string, i: nat)
  {
    i + |o| <= |s| && s[i..i + |o|] == o
  }

  /** `s.find(o, pos)`: the first index at or after `pos` where `o` occurs. */
  function FindFrom(s: string, o: string, pos: nat): (r: Option<nat>)
    ensures r.Some? ==> pos <= r.value && OccursAt(s, o, r.value)
    ensures r.Some? ==> forall j :: pos <= j < r.value ==> !OccursAt(s, o, j)
    ensures r.None? ==> forall j :: pos <= j ==> !OccursAt(s, o, j)
    decreases |s| - pos
  {
    if pos + |o| > |s| then None
    else if OccursAt(s, o, pos) then Some(pos)
    else FindFrom(s, o, pos + 1)
  }

  /**
   * Leftmost, non-overlapping replacement of every `o` in `s` by `n`: after a
   * replacement the scan resumes behind the inserted text, never inside it.
   */
  function Replaced(s: string, o: string, n: string): string
    requires |o| > 0
    decreases |s|
  {
    if |s| < |o| then s
    else if s[..|o|] == o then n + Replaced(s[|o|..], o, n)
    else [s[0]] + Replaced(s[1..], o, n)
  }

  /** How many occurrences `Replaced` replaces. */
  function Occurrences(s: string, o: string): nat
    requires |o| > 0
    decreases |s|
  {
    if |s| < |o| then 0
    else if s[..|o|] == o then 1 + Occurrences(s[|o|..], o)
    else Occurrences(s[1..], o)
  }

  /** Each replacement changes the length by `|n| - |o|`. */
  lemma {:induction false} ReplacedLength(s: string, o: string, n: string)
    requires |o| > 0
    ensures |Replaced(s, o, n)| == |s| + Occurrences(s, o) * (|n| - |o|)
    decreases |s|
  {
    if |s| < |o| {
    } else if s[..|o|] == o {
      var rest := s[|o|..];
      ReplacedLength(rest, o, n);
      assert Replaced(s, o, n) == n + Replaced(rest, o, n);
      assert Occurrences(s, o) == 1 + Occurrences(rest, o);
      OneMoreOccurrence(|s|, |o|, |n|, Occurrences(rest, o));
    } else {
      ReplacedLength(s[1..], o, n);
    }
  }

  /** The length arithmetic of one more replacement. */
  lemma OneMoreOccurrence(len: int, o: int, n: int, c: int)
    ensures n + ((len - o) + c * (n - o)) == len + (1 + c) * (n - o)
  {
    assert (1 + c) * (n - o) == c * (n - o) + (n - o);
  }

  /** Text before the first occurrence at or after `pos` is copied unchanged. */
  lemma {:induction false} ReplacedSkips(s: string, o: string, n: string, pos: nat, k: nat)
    requires |o| > 0 && pos <= k <= |s|
    requires forall j :: pos <= j < k ==> !OccursAt(s, o, j)
    ensures Replaced(s[pos..], o, n) == s[pos..k] + Replaced(s[k..], o, n)
    decreases k - pos
  {
    if pos < k {
      ReplacedSkips(s, o, n, pos + 1, k);
      ReplacedSkipOne(s, o, n, pos);
      assert s[pos..k] == [s[pos]] + s[pos + 1..k];
    }
  }

  /** A position where `o` does not occur is copied unchanged. */
  lemma ReplacedSkipOne(s: string, o: string, n: string, pos: nat)
    requires |o| > 0 && pos < |s| && !OccursAt(s, o, pos)
    ensures Replaced(s[pos..], o, n) == [s[pos]] + Replaced(s[pos + 1..], o, n)
  {
    var t := s[pos..];
    assert t[1..] == s[pos + 1..];
    if |t| >= |o| {
      assert t[..|o|] == s[pos..pos + |o|];
    } else {
      assert |s[pos + 1..]| < |o|;
      assert t == [s[pos]] + s[pos + 1..];
    }
  }

  /** When `o` occurs at `i`, the replacement of `s[i..]` starts with `n`. */
  lemma ReplacedAtOccurrence(s: string, o: string, n: string, i: nat)
    requires |o| > 0 && OccursAt(s, o, i)
    ensures Replaced(s[i..], o, n) == n + Replaced(s[i + |o|..], o, n)
  {
    assert s[i..][..|o|] == s[i..i + |o|];
    assert s[i..][|o|..] == s[i + |o|..];
  }

  /** One round of the loop of `replace`: replacing the occurrence found at `i` keeps the final result. */
  lemma ReplaceStep(s: string, o: string, n: string, pos: nat, i: nat)
    requires |o| > 0 && pos <= i && OccursAt(s, o, i)
    requires forall j :: pos <= j < i ==> !OccursAt(s, o, j)
    ensures var next := s[..i] + n + s[i + |o|..];
      next[..i + |n|] + Replaced(next[i + |n|..], o, n) == s[..pos] + Replaced(s[pos..], o, n)
  {
    var next := s[..i] + n + s[i + |o|..];
    SpliceParts(s, n, pos, i, i + |o|);
    ReplacedAtOccurrence(s, o, n, i);
    ReplacedSkips(s, o, n, pos, i);
    ConcatAssoc(s[..pos], s[pos..i], n, Replaced(s[i + |o|..], o, n));
  }

  lemma SpliceParts(s: string, n: string, pos: nat, i: nat, j: nat)
    requires pos <= i <= j <= |s|
    ensures var next := s[..i] + n + s[j..];
      next[..i + |n|] == s[..pos] + s[pos..i] + n && next[i + |n|..] == s[j..]
  {
  }

  lemma ConcatAssoc(a: string, b: string, c: string, d: string)
    ensures a + b + c + d == a + (b + (c + d))
  {
  }

  /** The private helper `PubSub::replace`, which rewrites its argument in place. */
  method Replace(str: string, oldstr: string, newstr: string) returns (out: string)
    requires |oldstr| > 0
    ensures out == Replaced(str, oldstr, newstr)
    ensures |out| == |str| + Occurrences(str, oldstr) * (|newstr| - |oldstr|)
  {
    out := str;
    var pos: nat := 0;
    var found := FindFrom(out, oldstr, pos);
    while found.Some?
      invariant pos <= |out|
      invariant found == FindFrom(out, oldstr, pos)
      invariant out[..pos] + Replaced(out[pos..], oldstr, newstr) == Replaced(str, oldstr, newstr)
      decreases |out| - pos
    {
      var i := found.value;
      ReplaceStep(out, oldstr, newstr, pos, i);
      out, pos := out[..i] + newstr + out[i + |oldstr|..], i + |newstr|;
      found := FindFrom(out, oldstr, pos);
    }
    ReplacedSkips(out, oldstr, newstr, pos, |out|);
    assert out[..pos] + out[pos..] == out;
    ReplacedLength(str, oldstr, newstr);
  }

  /** An inserted `+` is not replaced again: one `+` becomes exactly one `\w+`. */
  lemma ReplaceDoesNotRescan()
    ensures Replaced("+", "+", "\\w+") == "\\w+"
  {
    assert "+"[..1] == "+";
    assert "+"[1..] == "";
  }

  // ------------------------------------------------- the regular expressions

  datatype Atom = Literal(c: char) | WordClass | AnyChar

  /** An atom, repeated one or more times when `plus` is set. */
  datatype Term = Term(atom: Atom, plus: bool)

  /** The characters of `\w`. */
  predicate IsWordChar(c: char)
  {
    ('a' <= c <= 'z') || ('A' <= c <= 'Z') || ('0' <= c <= '9') || c == '_'
  }

  /** The characters that `.` of a `char`-based ECMAScript `std::regex` refuses. */
  predicate IsLineTerminator(c: char)
  {
    c == '\n' || c == '\r'
  }

  predicate AtomMatches(a: Atom, c: char)
  {
    match a
    case Literal(l) => c == l
    case WordClass => IsWordChar(c)
    case AnyChar => !IsLineTerminator(c)
  }

  /** `regex_match`: the terms match the whole of `s` (with backtracking). */
  predicate Matches(ts: seq<Term>, s: string)
    decreases |s|
  {
    if ts == [] then s == []
    else if s == [] then false
    else (AtomMatches(ts[0].atom, s[0]) &&
      (Matches(ts[1..], s[1..]) || (ts[0].plus && Matches(ts, s[1..]))))
  }

  /** The characters a topic pattern is written in: word characters, `/`, `+` and `#`. */
  predicate InAlphabet(c: char)
  {
    IsWordChar(c) || c == '/' || c == '+' || c == '#'
  }

  predicate IsPattern(p: string)
  {
    forall i :: 0 <= i < |p| ==> InAlphabet(p[i])
  }

  /** Characters that stand for themselves in the regular expressions produced here. */
  predicate IsLiteralChar(c: char)
  {
    IsWordChar(c) || c == '/' || c == '#'
  }

  /** `r` does not start with the quantifier `+`. */
  predicate StartsWithoutPlus(r: string)
  {
    r == [] || r[0] != '+'
  }

  /** The atom at the start of `r`, and how many characters it takes. */
  function ParseAtom(r: string): (res: Option<(Atom, nat)>)
    requires r != []
    ensures res.Some? ==> 1 <= res.value.1 <= |r|
  {
    if r[0] == '\\' && |r| >= 2 && r[1] == 'w' then Some((WordClass, 2))
    else if r[0] == '.' then Some((AnyChar, 1))
    else if IsLiteralChar(r[0]) then Some((Literal(r[0]), 1))
    else None
  }

  /**
   * Reads a regular expression of the fragment: `\w`, `.` or a literal
   * character, each optionally followed by `+`. Anything else is outside the
   * fragment and gives `None`.
   */
  function ParseRegex(r: string): Option<seq<Term>>
    decreases |r|
  {
    if r == [] then Some([])
    else if ParseAtom(r).None? then None
    else
      var (a, len) := ParseAtom(r).value;
      var plus := len < |r| && r[len] == '+';
      var rest := ParseRegex(r[if plus then len + 1 else len..]);
      if rest.None? then None else Some([Term(a, plus)] + rest.value)
  }

  /** One step of `ParseRegex`: an atom, its optional `+`, then the rest. */
  lemma ParseStep(r: string, a: Atom, len: nat, plus: bool)
    requires r != [] && ParseAtom(r) == Some((a, len))
    requires plus == (len < |r| && r[len] == '+')
    ensures var rest := ParseRegex(r[if plus then len + 1 else len..]);
      ParseRegex(r) == if rest.None? then None else Some([Term(a, plus)] + rest.value)
  {
  }

  /** `\w+` in front of `after`. */
  lemma ParseWordPlus(after: string)
    ensures ParseRegex("\\w+" + after) ==
      if ParseRegex(after).None? then None else Some([Term(WordClass, true)] + ParseRegex(after).value)
  {
    var r := "\\w+" + after;
    assert r[0] == '\\' && r[1] == 'w' && r[2] == '+';
    assert r[3..] == after;
    ParseStep(r, WordClass, 2, true);
  }

  /** A literal character not followed by `+`. */
  lemma ParseLiteral(c: char, after: string)
    requires IsLiteralChar(c) && StartsWithoutPlus(after)
    ensures ParseRegex([c] + after) ==
      if ParseRegex(after).None? then None else Some([Term(Literal(c), false)] + ParseRegex(after).value)
  {
    var r := [c] + after;
    assert r[0] == c;
    assert r[1..] == after;
    ParseStep(r, Literal(c), 1, false);
  }

  /** `.+`, the translation of a final `#`. */
  lemma ParseDotPlus()
    ensures ParseRegex(".+") == Some([Term(AnyChar, true)])
  {
    var r := ".+";
    assert r[0] == '.' && r[1] == '+' && r[2..] == [];
    ParseStep(r, AnyChar, 1, true);
    assert [Term(AnyChar, true)] + [] == [Term(AnyChar, true)];
  }

  datatype PatternError = OutOfRange

  /**
   * The regular expression `Multicast` builds from a topic pattern; an empty
   * pattern fails, because `pattern.at(-1)` throws `std::out_of_range`.
   */
  function Translate(topic: string): Result<string, PatternError>
  {
    var p := Replaced(topic, "+", "\\w+");
    if |p| == 0 then Err(OutOfRange)
    else if p[|p| - 1] == '#' then Ok(p[..|p| - 1] + ".+")
    else Ok(p)
  }

  /**
   * The first lines of `Multicast`: replace every `+` by `\w+`, then a final
   * `#` by `.+`; `pattern.at(last)` throws `out_of_range` on an empty topic.
   */
  method TopicRegex(topic: string) returns (r: Result<string, PatternError>)
    ensures r == Translate(topic)
  {
    var pattern := Replace(topic, "+", "\\w+");
    if |pattern| == 0 {
      return Err(OutOfRange);
    }
    var last := |pattern| - 1;
    if pattern[last] == '#' {
      pattern := pattern[..last] + ".+";
    }
    return Ok(pattern);
  }

  // ------------------------------------------------ what a pattern means

  /** The term a pattern character stands for, other than a final `#`. */
  function TermOf(c: char): Term
  {
    if c == '+' then Term(WordClass, true) else Term(Literal(c), false)
  }

  function TermsOf(p: string): (r: seq<Term>)
    ensures |r| == |p| && forall i :: 0 <= i < |p| ==> r[i] == TermOf(p[i])
  {
    if p == [] then [] else [TermOf(p[0])] + TermsOf(p[1..])
  }

  /**
   * What a non-empty pattern means, read directly: `+` is one or more word
   * characters, a final `#` is one or more characters of any kind, and every
   * other character (a `#` elsewhere included) stands for itself.
   */
  function PatternTerms(p: string): seq<Term>
    requires |p| > 0
  {
    if p[|p| - 1] == '#' then TermsOf(p[..|p| - 1]) + [Term(AnyChar, true)]
    else TermsOf(p)
  }

  /** What one character becomes when the one-character string `[c]` is replaced by `n`. */
  function CharImage(x: char, c: char, n: string): string
  {
    if x == c then n else [x]
  }

  /** Replacing a one-character string, unfolded once. */
  lemma ReplacedCharUnfold(s: string, c: char, n: string)
    requires |s| > 0
    ensures Replaced(s, [c], n) == CharImage(s[0], c, n) + Replaced(s[1..], [c], n)
  {
    assert s[..|[c]|] == [s[0]];
    assert s[|[c]|..] == s[1..];
  }

  /** Replacing a one-character string works character by character. */
  lemma {:induction false} ReplacedCharConcat(a: string, b: string, c: char, n: string)
    ensures Replaced(a + b, [c], n) == Replaced(a, [c], n) + Replaced(b, [c], n)
  {
    if a == [] {
      assert a + b == b;
    } else {
      var ab := a + b;
      var head := CharImage(a[0], c, n);
      assert ab[0] == a[0] && ab[1..] == a[1..] + b;
      calc {
        Replaced(ab, [c], n);
        { ReplacedCharUnfold(ab, c, n); }
        head + Replaced(a[1..] + b, [c], n);
        { ReplacedCharConcat(a[1..], b, c, n); }
        head + (Replaced(a[1..], [c], n) + Replaced(b, [c], n));
        (head + Replaced(a[1..], [c], n)) + Replaced(b, [c], n);
        { ReplacedCharUnfold(a, c, n); }
        Replaced(a, [c], n) + Replaced(b, [c], n);
      }
    }
  }

  lemma ReplacedPlusConcat(a: string, b: string)
    ensures Replaced(a + b, "+", "\\w+") == Replaced(a, "+", "\\w+") + Replaced(b, "+", "\\w+")
  {
    assert "+" == ['+'];
    ReplacedCharConcat(a, b, '+', "\\w+");
  }

  /** The expansion of one pattern character. */
  lemma ReplacedPlusChar(c: char)
    ensures Replaced([c], "+", "\\w+") == if c == '+' then "\\w+" else [c]
  {
    assert [c][..1] == [c];
    assert [c][1..] == [];
  }

  lemma {:induction false} ExpandedStart(q: string, tail: string)
    requires IsPattern(q) && StartsWithoutPlus(tail)
    ensures StartsWithoutPlus(Replaced(q, "+", "\\w+") + tail)
  {
    if q != [] {
      ReplacedPlusConcat([q[0]], q[1..]);
      assert q == [q[0]] + q[1..];
      ReplacedPlusChar(q[0]);
    }
  }

  /** The expansion of one pattern character parses to that character's term. */
  lemma ParseExpandedChar(c: char, after: string)
    requires InAlphabet(c) && StartsWithoutPlus(after)
    ensures ParseRegex(Replaced([c], "+", "\\w+") + after) ==
      if ParseRegex(after).None? then None else Some([TermOf(c)] + ParseRegex(after).value)
  {
    ReplacedPlusChar(c);
    if c == '+' {
      ParseWordPlus(after);
    } else {
      ParseLiteral(c, after);
    }
  }

  lemma TermsOfCons(q: string, extra: seq<Term>)
    requires q != []
    ensures TermsOf(q) + extra == [TermOf(q[0])] + (TermsOf(q[1..]) + extra)
  {
    assert TermsOf(q) == [TermOf(q[0])] + TermsOf(q[1..]);
  }

  /** Parsing an expanded pattern gives back one term per pattern character. */
  lemma {:induction false} ParseExpanded(q: string, tail: string, tailTerms: seq<Term>)
    requires IsPattern(q)
    requires StartsWithoutPlus(tail) && ParseRegex(tail) == Some(tailTerms)
    ensures ParseRegex(Replaced(q, "+", "\\w+") + tail) == Some(TermsOf(q) + tailTerms)
    decreases |q|
  {
    if q == [] {
      assert Replaced(q, "+", "\\w+") + tail == tail;
      assert TermsOf(q) + tailTerms == tailTerms;
    } else {
      var rest := q[1..];
      assert q == [q[0]] + rest;
      assert IsPattern(rest) by { forall i | 0 <= i < |rest| ensures InAlphabet(rest[i]) { assert rest[i] == q[i + 1]; } }
      var head := Replaced([q[0]], "+", "\\w+");
      var after := Replaced(rest, "+", "\\w+") + tail;
      var whole := Replaced(q, "+", "\\w+") + tail;
      assert whole == head + after by { ReplacedPlusConcat([q[0]], rest); }
      ParseExpanded(rest, tail, tailTerms);
      ExpandedStart(rest, tail);
      ParseExpandedChar(q[0], after);
      TermsOfCons(q, tailTerms);
      assert ParseRegex(whole) == Some([TermOf(q[0])] + (TermsOf(rest) + tailTerms));
    }
  }

  /** The regular expression `Multicast` builds has exactly the meaning `PatternTerms` gives. */
  lemma TranslateMeaning(p: string)
    requires IsPattern(p) && |p| > 0
    ensures Translate(p).Ok?
    ensures ParseRegex(Translate(p).value) == Some(PatternTerms(p))
  {
    var init := p[..|p| - 1];
    var last := p[|p| - 1];
    assert p == init + [last];
    assert IsPattern(init) by { forall i | 0 <= i < |init| ensures InAlphabet(init[i]) { assert init[i] == p[i]; } }
    ReplacedPlusConcat(init, [last]);
    ReplacedPlusChar(last);
    var e := Replaced(p, "+", "\\w+");
    var ei := Replaced(init, "+", "\\w+");
    if last == '#' {
      assert e == ei + "#";
      assert e[..|e| - 1] == ei;
      ParseDotPlus();
      ParseExpanded(init, ".+", [Term(AnyChar, true)]);
    } else {
      assert e[|e| - 1] != '#';
      ParseExpanded(p, "", []);
      assert e + "" == e;
      assert TermsOf(p) + [] == TermsOf(p);
    }
  }

  /** An empty pattern is the only one `Multicast` rejects. */
  lemma TranslateFailsIffEmpty(p: string)
    ensures Translate(p).Err? <==> p == []
  {
    ReplacedLength(p, "+", "\\w+");
  }

  // -------------------------------------------------- meaning of the terms

  /** A repeated atom consumes a non-empty run of matching characters, then the rest matches. */
  lemma {:induction false} PlusMeaning(a: Atom, rest: seq<Term>, s: string)
    ensures Matches([Term(a, true)] + rest, s) <==>
      exists k :: 1 <= k <= |s| && (forall i :: 0 <= i < k ==> AtomMatches(a, s[i])) && Matches(rest, s[k..])
    decreases |s|
  {
    var ts := [Term(a, true)] + rest;
    assert ts[1..] == rest;
    if s != [] {
      PlusMeaning(a, rest, s[1..]);
      if Matches(ts, s) {
        if Matches(rest, s[1..]) {
          assert (forall i :: 0 <= i < 1 ==> AtomMatches(a, s[i])) && Matches(rest, s[1..]);
        } else {
          var k :| 1 <= k <= |s[1..]| && (forall i :: 0 <= i < k ==> AtomMatches(a, s[1..][i])) && Matches(rest, s[1..][k..]);
          assert s[1..][k..] == s[k + 1..];
          assert forall i :: 0 <= i < k + 1 ==> AtomMatches(a, s[i]) by {
            forall i | 0 <= i < k + 1 ensures AtomMatches(a, s[i]) {
              if i > 0 { assert s[i] == s[1..][i - 1]; }
            }
          }
        }
      }
      if exists k :: 1 <= k <= |s| && (forall i :: 0 <= i < k ==> AtomMatches(a, s[i])) && Matches(rest, s[k..]) {
        var k :| 1 <= k <= |s| && (forall i :: 0 <= i < k ==> AtomMatches(a, s[i])) && Matches(rest, s[k..]);
        assert AtomMatches(a, s[0]);
        if k > 1 {
          assert s[1..][k - 1..] == s[k..];
          assert forall i :: 0 <= i < k - 1 ==> AtomMatches(a, s[1..][i]) by {
            forall i | 0 <= i < k - 1 ensures AtomMatches(a, s[1..][i]) { assert s[1..][i] == s[i + 1]; }
          }
        }
      }
    }
  }

  /** Literal terms match exactly their own text. */
  lemma {:induction false} LiteralsMatchExactly(q: string, tail: seq<Term>, s: string)
    requires forall i :: 0 <= i < |q| ==> q[i] != '+'
    ensures Matches(TermsOf(q) + tail, s) <==> (|q| <= |s| && s[..|q|] == q && Matches(tail, s[|q|..]))
    decreases |q|
  {
    if q != [] {
      var ts := TermsOf(q) + tail;
      assert ts[0] == Term(Literal(q[0]), false);
      assert ts[1..] == TermsOf(q[1..]) + tail;
      if s != [] {
        LiteralsMatchExactly(q[1..], tail, s[1..]);
        if |q| <= |s| {
          assert s[1..][|q| - 1..] == s[|q|..];
          assert s[..|q|] == [s[0]] + s[1..][..|q| - 1];
          assert q == [q[0]] + q[1..];
        }
      }
    } else {
      assert TermsOf(q) + tail == tail;
    }
  }

  /** A pattern with no `+` and no final `#` selects exactly the topic equal to it. */
  lemma LiteralPatternMatchesItself(p: string, topic: string)
    requires |p| > 0 && p[|p| - 1] != '#'
    requires forall i :: 0 <= i < |p| ==> p[i] != '+'
    ensures Matches(PatternTerms(p), topic) <==> topic == p
  {
    LiteralsMatchExactly(p, [], topic);
    assert TermsOf(p) + [] == TermsOf(p);
  }

  /** `s` is a non-empty run of characters none of which is `'\n'` or `'\r'`. */
  predicate LineRun(s: string)
  {
    |s| > 0 && forall i :: 0 <= i < |s| ==> !IsLineTerminator(s[i])
  }

  /** `.+` matches exactly the non-empty runs without a line terminator. */
  lemma DotPlusMeaning(s: string)
    ensures Matches([Term(AnyChar, true)], s) <==> LineRun(s)
  {
    PlusMeaning(AnyChar, [], s);
    assert [Term(AnyChar, true)] + [] == [Term(AnyChar, true)];
    if Matches([Term(AnyChar, true)], s) {
      var k :| 1 <= k <= |s| && (forall i :: 0 <= i < k ==> AtomMatches(AnyChar, s[i])) && Matches([], s[k..]);
      assert k == |s|;
    }
    if LineRun(s) {
      assert forall i :: 0 <= i < |s| ==> AtomMatches(AnyChar, s[i]);
      assert Matches([], s[|s|..]);
    }
  }

  /**
   * `prefix#`, with no `+` in the prefix, selects the topics that extend the
   * prefix by at least one more character, none of them a line terminator.
   */
  lemma ForwardPatternMeaning(prefix: string, topic: string)
    requires forall i :: 0 <= i < |prefix| ==> prefix[i] != '+'
    ensures Matches(PatternTerms(prefix + "#"), topic) <==>
      (|prefix| <= |topic| && topic[..|prefix|] == prefix && LineRun(topic[|prefix|..]))
  {
    var p := prefix + "#";
    assert p[..|p| - 1] == prefix;
    LiteralsMatchExactly(prefix, [Term(AnyChar, true)], topic);
    if |prefix| <= |topic| {
      DotPlusMeaning(topic[|prefix|..]);
    }
  }

  lemma TermsOfConcat(x: string, y: string)
    ensures TermsOf(x + y) == TermsOf(x) + TermsOf(y)
  {
    var l, r := TermsOf(x + y), TermsOf(x) + TermsOf(y);
    assert |l| == |r|;
    forall i | 0 <= i < |l| ensures l[i] == r[i] {
      if i < |x| { assert (x + y)[i] == x[i]; } else { assert (x + y)[i] == y[i - |x|]; }
    }
  }

  /** `s` is a non-empty run of word characters followed by `b`. */
  predicate WordRunThen(b: string, s: string)
  {
    |b| < |s| && s[|s| - |b|..] == b && forall i :: 0 <= i < |s| - |b| ==> IsWordChar(s[i])
  }

  /** `\w+` followed by the literal text `b` matches a run of word characters, then `b`. */
  lemma WordPlusThenLiteral(b: string, s: string)
    requires forall i :: 0 <= i < |b| ==> b[i] != '+'
    ensures Matches([Term(WordClass, true)] + TermsOf(b), s) <==> WordRunThen(b, s)
  {
    PlusMeaning(WordClass, TermsOf(b), s);
    assert TermsOf(b) + [] == TermsOf(b);
    if Matches([Term(WordClass, true)] + TermsOf(b), s) {
      var k :| 1 <= k <= |s| && (forall i :: 0 <= i < k ==> AtomMatches(WordClass, s[i])) && Matches(TermsOf(b), s[k..]);
      LiteralsMatchExactly(b, [], s[k..]);
      assert s[k..] == b;
    }
    if WordRunThen(b, s) {
      var k := |s| - |b|;
      LiteralsMatchExactly(b, [], s[k..]);
      assert s[k..][|b|..] == [];
      assert forall i :: 0 <= i < k ==> AtomMatches(WordClass, s[i]);
    }
  }

  lemma TermsOfSegment(a: string, b: string)
    ensures TermsOf(a + "+" + b) == TermsOf(a) + ([Term(WordClass, true)] + TermsOf(b))
  {
    var w := [Term(WordClass, true)];
    assert TermsOf("+") == w;
    calc {
      TermsOf(a + "+" + b);
      { TermsOfConcat(a + "+", b); }
      TermsOf(a + "+") + TermsOf(b);
      { TermsOfConcat(a, "+"); }
      (TermsOf(a) + w) + TermsOf(b);
      TermsOf(a) + (w + TermsOf(b));
    }
  }

  /** The terms of `a+b` when the pattern does not end in `#`. */
  lemma SegmentTerms(a: string, b: string)
    requires b == [] || b[|b| - 1] != '#'
    ensures PatternTerms(a + "+" + b) == TermsOf(a) + ([Term(WordClass, true)] + TermsOf(b))
  {
    var p := a + "+" + b;
    assert p[|p| - 1] != '#';
    assert PatternTerms(p) == TermsOf(p);
    TermsOfSegment(a, b);
  }

  /** The terms of `a+b` select the topics made of `a`, a non-empty run of word characters, then `b`. */
  lemma SegmentTermsMeaning(a: string, b: string, topic: string)
    requires forall i :: 0 <= i < |a| ==> a[i] != '+'
    requires forall i :: 0 <= i < |b| ==> b[i] != '+'
    ensures Matches(TermsOf(a) + ([Term(WordClass, true)] + TermsOf(b)), topic) <==>
      (|a| <= |topic| && topic[..|a|] == a && WordRunThen(b, topic[|a|..]))
  {
    LiteralsMatchExactly(a, [Term(WordClass, true)] + TermsOf(b), topic);
    if |a| <= |topic| {
      WordPlusThenLiteral(b, topic[|a|..]);
    }
  }

  /**
   * `a+b`, with no other `+` and no final `#`, selects exactly the topics made
   * of `a`, a non-empty run of word characters, then `b`.
   */
  lemma SegmentPatternMeaning(a: string, b: string, topic: string)
    requires forall i :: 0 <= i < |a| ==> a[i] != '+'
    requires forall i :: 0 <= i < |b| ==> b[i] != '+'
    requires b == [] || b[|b| - 1] != '#'
    ensures Matches(PatternTerms(a + "+" + b), topic) <==>
      (|a| <= |topic| && topic[..|a|] == a && WordRunThen(b, topic[|a|..]))
  {
    SegmentTerms(a, b);
    SegmentTermsMeaning(a, b, topic);
  }

  /** `/a/actor/#` selects `/a/actor/1`, `/a/actor/2` and every other `/a/actor/` plus one character. */
  lemma ForwardMatchExample(c: char)
    requires !IsLineTerminator(c)
    ensures Matches(PatternTerms("/a/actor/#"), "/a/actor/" + [c])
  {
    var t := "/a/actor/" + [c];
    assert "/a/actor/" + "#" == "/a/actor/#";
    assert t[..9] == "/a/actor/" && t[9..] == [c];
    assert LineRun(t[9..]);
    ForwardPatternMeaning("/a/actor/", t);
  }

  /** `/a/actor/#` does not select `/b/actor/2`. */
  lemma ForwardMismatchExample()
    ensures !Matches(PatternTerms("/a/actor/#"), "/b/actor/2")
  {
    assert "/a/actor/" + "#" == "/a/actor/#";
    var t := "/b/actor/2";
    assert t[..9][1] == 'b';
    ForwardPatternMeaning("/a/actor/", t);
  }

  /** `/+/actor/2` selects `/a/actor/2`, `/b/actor/2` and every other one-character segment. */
  lemma PartialMatchExample(c: char)
    requires IsWordChar(c)
    ensures Matches(PatternTerms("/+/actor/2"), "/" + [c] + "/actor/2")
  {
    var t := "/" + [c] + "/actor/2";
    assert "/" + "+" + "/actor/2" == "/+/actor/2";
    var s := t[1..];
    assert t[..1] == "/" && s == [c] + "/actor/2";
    assert s[|s| - 8..] == "/actor/2";
    assert WordRunThen("/actor/2", s);
    SegmentPatternMeaning("/", "/actor/2", t);
  }

  /** `/+/actor/2` does not select `/a/actor/1`. */
  lemma PartialMismatchExample()
    ensures !Matches(PatternTerms("/+/actor/2"), "/a/actor/1")
  {
    assert "/" + "+" + "/actor/2" == "/+/actor/2";
    SegmentPatternMeaning("/", "/actor/2", "/a/actor/1");
  }
}
