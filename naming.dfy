/** The two name transforms of the generator: the class name built from a
    spec file's base name, and `to_snake_case`, which names the output file.
    The two `re.sub` passes of `to_snake_case` are written out as the
    left-to-right, non-overlapping scans the regular-expression engine makes. */
module Naming {
  import opened Strings

  /** `[w.capitalize() for w in words]` */
  function CapitalizeAll(words: seq<string>): (r: seq<string>)
    ensures |r| == |words|
    ensures forall i :: 0 <= i < |words| ==> r[i] == Capitalize(words[i])
    ensures forall i :: 0 <= i < |words| ==> ('_' in r[i] <==> '_' in words[i])
    decreases |words|
  {
    if words == [] then []
    else
      CapitalizeKeeps(words[0], '_');
      [Capitalize(words[0])] + CapitalizeAll(words[1..])
  }

  /** The class name of a spec file with base name `baseName`: the base name
      capitalised as a whole, cut at every `_`, each piece capitalised, and
      the pieces glued together.  No `_` is left in it. */
  function ClassName(baseName: string): (r: string)
    ensures '_' !in r
  {
    var words := CapitalizeAll(Split(Capitalize(baseName), '_'));
    ConcatAvoids(words, '_');
    Concat(words)
  }

  lemma {:induction false} LowerConcatCapitalized(words: seq<string>)
    ensures Lower(Concat(CapitalizeAll(words))) == Lower(Concat(words))
    decreases |words|
  {
    if words != [] {
      assert CapitalizeAll(words)[1..] == CapitalizeAll(words[1..]);
      LowerAppend(Capitalize(words[0]), Concat(CapitalizeAll(words[1..])));
      LowerAppend(words[0], Concat(words[1..]));
      LowerCapitalize(words[0]);
      LowerConcatCapitalized(words[1..]);
    }
  }

  /** Up to case, the class name is the base name without its underscores:
      the derivation only changes the case of letters and drops `_`. */
  lemma ClassNameKeepsLetters(baseName: string)
    ensures Lower(ClassName(baseName)) == Lower(Without(baseName, '_'))
  {
    var c := Capitalize(baseName);
    var pieces := Split(c, '_');
    assert Lower(ClassName(baseName)) == Lower(Concat(pieces)) by {
      LowerConcatCapitalized(pieces);
    }
    assert Concat(pieces) == Without(c, '_') by {
      WithoutJoin(pieces, '_');
    }
    assert Lower(Without(c, '_')) == Without(Lower(c), '_') by {
      LowerWithout(c, '_');
    }
    assert Lower(c) == Lower(baseName) by {
      LowerCapitalize(baseName);
    }
    LowerWithout(baseName, '_');
  }

  /** `r` is `s` with zero or more `_` characters inserted. */
  predicate Widens(s: string, r: string)
    decreases |r|
  {
    if r == [] then s == []
    else (s != [] && r[0] == s[0] && Widens(s[1..], r[1..])) || (r[0] == '_' && Widens(s, r[1..]))
  }

  lemma {:induction false} WidensPrefix(p: string, s: string, r: string)
    requires Widens(s, r)
    ensures Widens(p + s, p + r)
    decreases |p|
  {
    if p != [] {
      WidensPrefix(p[1..], s, r);
      assert (p + s)[1..] == p[1..] + s;
      assert (p + r)[1..] == p[1..] + r;
      assert (p + r)[0] == (p + s)[0];
    } else {
      assert p + s == s && p + r == r;
    }
  }

  lemma {:induction false} WidensTrans(s: string, t: string, r: string)
    requires Widens(s, t) && Widens(t, r)
    ensures Widens(s, r)
    decreases |r|
  {
    if r != [] {
      if t != [] && r[0] == t[0] && Widens(t[1..], r[1..]) {
        if s != [] && t[0] == s[0] && Widens(s[1..], t[1..]) {
          WidensTrans(s[1..], t[1..], r[1..]);
        } else {
          WidensTrans(s, t[1..], r[1..]);
        }
      } else {
        WidensTrans(s, t, r[1..]);
      }
    }
  }

  lemma {:induction false} WidensLower(s: string, r: string)
    requires Widens(s, r)
    ensures Widens(Lower(s), Lower(r))
    decreases |r|
  {
    if r != [] {
      assert Lower(r)[1..] == Lower(r[1..]);
      if s != [] && r[0] == s[0] && Widens(s[1..], r[1..]) {
        assert Lower(s)[1..] == Lower(s[1..]);
        WidensLower(s[1..], r[1..]);
      } else {
        WidensLower(s, r[1..]);
      }
    }
  }

  /** The length of the greedy `[a-z]*` match at the start of `s`. */
  function LowerRunLength(s: string): (n: nat)
    ensures n <= |s|
    ensures forall i :: 0 <= i < n ==> IsLower(s[i])
    ensures n < |s| ==> !IsLower(s[n])
    decreases |s|
  {
    if s != [] && IsLower(s[0]) then 1 + LowerRunLength(s[1..]) else 0
  }

  /** First pass of `to_snake_case`, `re.sub('(.)([A-Z][a-z]+)', r'\1_\2', s)`:
      at each position, a character other than a newline followed by a
      capital and a maximal run of at least one lower-case letter has `_`
      put between it and the capital, and the scan resumes after the run. */
  function UnderscoreBeforeWords(s: string): (r: string)
    ensures Widens(s, r)
    decreases |s|
  {
    if |s| >= 3 && s[0] != '\n' && IsUpper(s[1]) && IsLower(s[2]) then
      var n := 2 + LowerRunLength(s[2..]);
      var rest := UnderscoreBeforeWords(s[n..]);
      assert Widens(s[1..n] + s[n..], s[1..n] + rest) by {
        WidensPrefix(s[1..n], s[n..], rest);
      }
      assert s[1..n] + s[n..] == s[1..];
      assert Widens(s, [s[0]] + "_" + s[1..n] + rest) by {
        assert ([s[0]] + "_" + s[1..n] + rest)[1..] == "_" + (s[1..n] + rest);
        assert ("_" + (s[1..n] + rest))[1..] == s[1..n] + rest;
      }
      [s[0]] + "_" + s[1..n] + rest
    else if s == [] then []
    else
      var rest := UnderscoreBeforeWords(s[1..]);
      assert ([s[0]] + rest)[1..] == rest;
      [s[0]] + rest
  }

  predicate IsLowerOrDigit(c: char) {
    IsLower(c) || IsDigit(c)
  }

  /** Second pass of `to_snake_case`, `re.sub('([a-z0-9])([A-Z])', r'\1_\2', s)`:
      a lower-case letter or digit followed by a capital gets `_` between
      them, and the scan resumes after the capital. */
  function UnderscoreBeforeCapitals(s: string): (r: string)
    ensures Widens(s, r)
    decreases |s|
  {
    if |s| >= 2 && IsLowerOrDigit(s[0]) && IsUpper(s[1]) then
      var rest := UnderscoreBeforeCapitals(s[2..]);
      assert Widens(s, [s[0], '_', s[1]] + rest) by {
        var r := [s[0], '_', s[1]] + rest;
        assert r[1..][1..][1..] == rest && s[1..][1..] == s[2..];
        assert Widens(s[1..], r[1..][1..]);
        assert Widens(s[1..], r[1..]);
      }
      [s[0], '_', s[1]] + rest
    else if s == [] then []
    else
      var rest := UnderscoreBeforeCapitals(s[1..]);
      assert ([s[0]] + rest)[1..] == rest;
      [s[0]] + rest
  }

  /** `to_snake_case`: the two passes, then `lower()`.  The result has no
      capital letters and is the lower-cased name with `_` inserted. */
  function SnakeCase(name: string): (r: string)
    ensures NoUpper(r)
    ensures Widens(Lower(name), r)
  {
    var s1 := UnderscoreBeforeWords(name);
    var s2 := UnderscoreBeforeCapitals(s1);
    WidensTrans(name, s1, s2);
    WidensLower(name, s2);
    Lower(s2)
  }

  /** An independent description of the second pass: going left to right,
      `_` goes in front of every capital whose left neighbour is a lower-case
      letter or a digit (`after` says whether the character before `s` is one). */
  function MarkCapitals(after: bool, s: string): (r: string)
    decreases |s|
  {
    if s == [] then []
    else (if after && IsUpper(s[0]) then "_" else "") + [s[0]] + MarkCapitals(IsLowerOrDigit(s[0]), s[1..])
  }

  /** The second pass never skips a capital it should mark: a capital it
      consumes cannot itself start a match, so the scan agrees with the
      neighbour-by-neighbour description. */
  lemma {:induction false} UnderscoreBeforeCapitalsIsMarking(s: string)
    ensures UnderscoreBeforeCapitals(s) == MarkCapitals(false, s)
    decreases |s|
  {
    if |s| >= 2 && IsLowerOrDigit(s[0]) && IsUpper(s[1]) {
      UnderscoreBeforeCapitalsIsMarking(s[2..]);
      assert s[1..][1..] == s[2..];
      assert MarkCapitals(true, s[1..]) == "_" + [s[1]] + MarkCapitals(false, s[2..]);
    } else if s != [] {
      UnderscoreBeforeCapitalsIsMarking(s[1..]);
      if IsLowerOrDigit(s[0]) && s[1..] != [] {
        assert MarkCapitals(true, s[1..]) == MarkCapitals(false, s[1..]);
      }
    }
  }

  // The round trip from snake-case base names through the class name.

  /** A base-name word that survives the round trip: at least two letters,
      all lower-case. */
  predicate SnakeWord(w: string) {
    |w| >= 2 && AllLower(w)
  }

  predicate SnakeWords(words: seq<string>) {
    forall i :: 0 <= i < |words| ==> SnakeWord(words[i])
  }

  /** A capitalised snake-case word: a capital, then lower-case letters. */
  predicate CapWord(v: string) {
    |v| >= 2 && IsUpper(v[0]) && AllLower(v[1..])
  }

  predicate CapWords(vs: seq<string>) {
    forall i :: 0 <= i < |vs| ==> CapWord(vs[i])
  }

  lemma CapitalizedWord(w: string)
    requires SnakeWord(w)
    ensures CapWord(Capitalize(w))
    ensures Capitalize(Capitalize(w)) == Capitalize(w)
    ensures Lower(Capitalize(w)) == w
  {
    var c := Capitalize(w);
    assert Lower(c)[0] == w[0] by {
      CaseRoundTrip(w[0]);
    }
    assert forall i :: 1 <= i < |w| ==> Lower(c)[i] == w[i];
  }

  lemma CapitalizedWords(words: seq<string>)
    requires SnakeWords(words)
    ensures CapWords(CapitalizeAll(words))
  {
    forall i | 0 <= i < |words|
      ensures CapWord(CapitalizeAll(words)[i])
    {
      CapitalizedWord(words[i]);
    }
  }

  /** What the first pass makes of capitalised words glued together: it
      separates the second word from the first, the fourth from the third,
      and so on, because each match swallows the whole next word. */
  function PairedWords(vs: seq<string>): string
    decreases |vs|
  {
    if |vs| == 0 then []
    else if |vs| == 1 then vs[0]
    else vs[0] + "_" + vs[1] + PairedWords(vs[2..])
  }

  lemma {:induction false} LowerRunOf(x: string, rest: string)
    requires AllLower(x)
    requires rest == [] || !IsLower(rest[0])
    ensures LowerRunLength(x + rest) == |x|
    decreases |x|
  {
    if x != [] {
      assert (x + rest)[1..] == x[1..] + rest;
      LowerRunOf(x[1..], rest);
    } else {
      assert x + rest == rest;
    }
  }

  /** Where the second character is not a capital, the first pass copies
      the first character and moves on. */
  lemma WordsPassCopies(s: string)
    requires |s| >= 2 && !IsUpper(s[1])
    ensures UnderscoreBeforeWords(s) == [s[0]] + UnderscoreBeforeWords(s[1..])
  {
  }

  /** Inside a word the first pass copies characters: no capital follows. */
  lemma {:induction false} WordsPassSkipsWord(v: string, rest: string)
    requires |v| >= 1
    requires forall i :: 1 <= i < |v| ==> IsLower(v[i])
    ensures UnderscoreBeforeWords(v + rest) == v[..|v| - 1] + UnderscoreBeforeWords([v[|v| - 1]] + rest)
    decreases |v|
  {
    var k := |v| - 1;
    if |v| > 1 {
      var w := v[1..];
      var tail := UnderscoreBeforeWords([v[k]] + rest);
      assert (v + rest)[1..] == w + rest;
      assert (v + rest)[1] == v[1];
      assert w[|w| - 1] == v[k];
      assert [v[0]] + (w[..|w| - 1] + tail) == v[..k] + tail by {
        assert [v[0]] + w[..|w| - 1] == v[..k];
      }
      assert UnderscoreBeforeWords(v + rest) == [v[0]] + UnderscoreBeforeWords(w + rest) by {
        WordsPassCopies(v + rest);
      }
      assert UnderscoreBeforeWords(w + rest) == w[..|w| - 1] + tail by {
        WordsPassSkipsWord(w, rest);
      }
    } else {
      assert v[..0] == [];
      assert [v[0]] == v;
    }
  }

  /** Where a capital and a lower-case letter follow a character other than
      a newline, the first pass matches them with the rest of the lower-case run. */
  lemma WordsPassSplits(s: string)
    requires |s| >= 3 && s[0] != '\n' && IsUpper(s[1]) && IsLower(s[2])
    ensures var n := 2 + LowerRunLength(s[2..]);
      UnderscoreBeforeWords(s) == [s[0]] + "_" + s[1..n] + UnderscoreBeforeWords(s[n..])
  {
  }

  /** At the end of a word the first pass matches and swallows the next word. */
  lemma WordsPassMatches(c: char, v: string, rest: string)
    requires c != '\n'
    requires CapWord(v)
    requires rest == [] || IsUpper(rest[0])
    ensures UnderscoreBeforeWords([c] + v + rest) == [c] + "_" + v + UnderscoreBeforeWords(rest)
  {
    var s := [c] + v + rest;
    assert s[0] == c && s[1] == v[0] && s[2] == v[1..][0];
    assert s[2..] == v[1..] + rest;
    assert s[1..|v| + 1] == v;
    assert s[|v| + 1..] == rest;
    assert LowerRunLength(s[2..]) == |v| - 1 by {
      LowerRunOf(v[1..], rest);
    }
    WordsPassSplits(s);
  }

  lemma ConcatStartsUpper(vs: seq<string>)
    requires CapWords(vs)
    ensures Concat(vs) == [] || IsUpper(Concat(vs)[0])
  {
    if vs != [] {
      assert Concat(vs) == vs[0] + Concat(vs[1..]);
    }
  }

  lemma {:induction false} WordsPassOnCamel(vs: seq<string>)
    requires CapWords(vs)
    ensures UnderscoreBeforeWords(Concat(vs)) == PairedWords(vs)
    decreases |vs|
  {
    if |vs| == 1 {
      WordsPassOnOneWord(vs[0]);
      assert Concat(vs) == vs[0] + [] by {
        assert vs[1..] == [];
      }
    } else if |vs| >= 2 {
      var rest := Concat(vs[2..]);
      assert Concat(vs) == vs[0] + vs[1] + rest by {
        assert vs[1..][1..] == vs[2..];
      }
      assert UnderscoreBeforeWords(Concat(vs)) == vs[0] + "_" + vs[1] + UnderscoreBeforeWords(rest) by {
        ConcatStartsUpper(vs[2..]);
        WordsPassOnPair(vs[0], vs[1], rest);
      }
      WordsPassOnCamel(vs[2..]);
    }
  }

  /** Two capitalised words come out of the first pass separated. */
  lemma WordsPassOnPair(v0: string, v1: string, rest: string)
    requires CapWord(v0) && CapWord(v1)
    requires rest == [] || IsUpper(rest[0])
    ensures UnderscoreBeforeWords(v0 + v1 + rest) == v0 + "_" + v1 + UnderscoreBeforeWords(rest)
  {
    var k := |v0| - 1;
    var c := v0[k];
    var tail := UnderscoreBeforeWords(rest);
    assert v0 + v1 + rest == v0 + (v1 + rest);
    assert [c] + (v1 + rest) == [c] + v1 + rest;
    assert v0[..k] + ([c] + "_" + v1 + tail) == v0 + "_" + v1 + tail by {
      assert v0[..k] + [c] == v0;
    }
    assert UnderscoreBeforeWords(v0 + (v1 + rest)) == v0[..k] + UnderscoreBeforeWords([c] + (v1 + rest)) by {
      WordsPassSkipsWord(v0, v1 + rest);
    }
    assert UnderscoreBeforeWords([c] + v1 + rest) == [c] + "_" + v1 + tail by {
      WordsPassMatches(c, v1, rest);
    }
  }

  lemma WordsPassOnOneWord(v: string)
    requires CapWord(v)
    ensures UnderscoreBeforeWords(v + []) == v
  {
    var k := |v| - 1;
    WordsPassSkipsWord(v, []);
    assert [v[k]] + [] == [v[k]];
    assert v[..k] + [v[k]] == v;
  }

  lemma {:induction false} MarkLowerRun(after: bool, x: string, rest: string)
    requires |x| >= 1 && AllLower(x)
    ensures MarkCapitals(after, x + rest) == x + MarkCapitals(true, rest)
    decreases |x|
  {
    assert (x + rest)[1..] == x[1..] + rest;
    if |x| > 1 {
      MarkLowerRun(true, x[1..], rest);
    } else {
      assert x[1..] + rest == rest;
    }
  }

  lemma MarkCapWord(after: bool, v: string, rest: string)
    requires CapWord(v)
    ensures MarkCapitals(after, v + rest) == (if after then "_" else "") + v + MarkCapitals(true, rest)
  {
    assert (v + rest)[1..] == v[1..] + rest;
    MarkLowerRun(false, v[1..], rest);
    assert v == [v[0]] + v[1..];
  }

  lemma {:induction false} MarkPairedWords(vs: seq<string>)
    requires |vs| >= 1 && CapWords(vs)
    ensures MarkCapitals(false, PairedWords(vs)) == Join(vs, '_')
    ensures MarkCapitals(true, PairedWords(vs)) == "_" + Join(vs, '_')
    decreases |vs|
  {
    var v0 := vs[0];
    if |vs| == 1 {
      assert PairedWords(vs) == v0 + [];
      MarkCapWord(false, v0, []);
      MarkCapWord(true, v0, []);
    } else {
      var u := "_" + (vs[1] + PairedWords(vs[2..]));
      var j := Join(vs[1..], '_');
      assert PairedWords(vs) == v0 + u;
      assert Join(vs, '_') == v0 + ("_" + j);
      assert MarkCapitals(true, u) == "_" + j by {
        MarkPairTail(vs);
      }
      MarkFirstWord(v0, u, "_" + j);
    }
  }

  /** A capitalised word is copied, and marked when something precedes it. */
  lemma MarkFirstWord(v: string, u: string, marked: string)
    requires CapWord(v)
    requires MarkCapitals(true, u) == marked
    ensures MarkCapitals(false, v + u) == v + marked
    ensures MarkCapitals(true, v + u) == "_" + (v + marked)
  {
    MarkCapWord(false, v, u);
    MarkCapWord(true, v, u);
  }

  /** The second word of a pair and everything after it, once the first
      word has been marked. */
  lemma {:induction false} MarkPairTail(vs: seq<string>)
    requires |vs| >= 2 && CapWords(vs)
    ensures MarkCapitals(true, "_" + (vs[1] + PairedWords(vs[2..]))) == "_" + Join(vs[1..], '_')
    decreases |vs|, 0
  {
    var v1 := vs[1];
    var tail := PairedWords(vs[2..]);
    var u := "_" + (v1 + tail);
    assert u[1..] == v1 + tail;
    assert vs[1..][1..] == vs[2..];
    assert MarkCapitals(true, u) == "_" + MarkCapitals(false, v1 + tail);
    assert MarkCapitals(false, v1 + tail) == v1 + MarkCapitals(true, tail) by {
      MarkCapWord(false, v1, tail);
    }
    if |vs| == 2 {
      assert tail == [];
      assert Join(vs[1..], '_') == v1;
    } else {
      assert Join(vs[1..], '_') == v1 + "_" + Join(vs[2..], '_');
      MarkPairedWords(vs[2..]);
    }
  }

  lemma {:induction false} LowerJoinCapitalized(words: seq<string>)
    requires |words| >= 1 && SnakeWords(words)
    ensures Lower(Join(CapitalizeAll(words), '_')) == Join(words, '_')
    decreases |words|
  {
    CapitalizedWord(words[0]);
    if |words| > 1 {
      var c0 := Capitalize(words[0]);
      assert CapitalizeAll(words)[1..] == CapitalizeAll(words[1..]);
      LowerAppend(c0 + "_", Join(CapitalizeAll(words[1..]), '_'));
      LowerAppend(c0, "_");
      LowerJoinCapitalized(words[1..]);
    }
  }

  lemma {:induction false} NoUpperJoin(words: seq<string>)
    requires SnakeWords(words)
    ensures NoUpper(Join(words, '_'))
    decreases |words|
  {
    if |words| > 1 {
      NoUpperJoin(words[1..]);
    }
  }

  /** Capitalising a snake-case base name as a whole only touches its first
      letter, so cutting at `_` gives the first word capitalised and the
      others unchanged; capitalising every word then glues them into the
      class name. */
  lemma {:induction false} ClassNameOfSnakeWords(words: seq<string>)
    requires |words| >= 1 && SnakeWords(words)
    ensures ClassName(Join(words, '_')) == Concat(CapitalizeAll(words))
  {
    var base := Join(words, '_');
    var c0 := Capitalize(words[0]);
    CapitalizedWord(words[0]);
    var firstUp := [c0] + words[1..];
    assert Capitalize(base) == Join(firstUp, '_') by {
      if |words| == 1 {
        assert base == words[0];
      } else {
        var tail := [('_')] + Join(words[1..], '_');
        assert base == words[0] + tail;
        assert Join(firstUp, '_') == c0 + tail by {
          assert firstUp[1..] == words[1..];
        }
        NoUpperJoin(words);
        assert NoUpper(base[1..]);
        LowerOfNoUpper(base[1..]);
        assert Capitalize(base) == c0 + tail;
      }
    }
    assert forall i :: 0 <= i < |firstUp| ==> '_' !in firstUp[i];
    SplitJoin(firstUp, '_');
    assert CapitalizeAll(firstUp) == CapitalizeAll(words);
  }

  /** `to_snake_case` undoes the class-name derivation for base names made of
      lower-case words of two letters or more joined by single underscores
      (`ticket_audit` gives `TicketAudit` gives `ticket_audit`). */
  lemma SnakeCaseOfClassName(words: seq<string>)
    requires |words| >= 1 && SnakeWords(words)
    ensures SnakeCase(ClassName(Join(words, '_'))) == Join(words, '_')
  {
    var vs := CapitalizeAll(words);
    ClassNameOfSnakeWords(words);
    CapitalizedWords(words);
    WordsPassOnCamel(vs);
    UnderscoreBeforeCapitalsIsMarking(PairedWords(vs));
    MarkPairedWords(vs);
    LowerJoinCapitalized(words);
  }

  /** The name of the file a class is written to: its snake-case name with
      the `.py` extension. */
  function OutputFileName(className: string): (r: string)
    ensures EndsWith(r, ".py")
    ensures NoUpper(r)
  {
    SnakeCase(className) + ".py"
  }

  /** A spec file with a snake-case base name is generated into the module
      of the same base name: `ticket_audit.json` gives `ticket_audit.py`. */
  lemma OutputFileKeepsBaseName(words: seq<string>)
    requires |words| >= 1 && SnakeWords(words)
    ensures OutputFileName(ClassName(Join(words, '_'))) == Join(words, '_') + ".py"
  {
    SnakeCaseOfClassName(words);
  }
}
