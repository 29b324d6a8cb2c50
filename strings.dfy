/** String operations of Python 2 that the class generator relies on, stated
    over ASCII: `endswith`, `in`, `replace(pat, '')`, `lower`, `capitalize`,
    `split(sep)` and `sep.join(words)`. */
module Strings {

  /** `s.endswith(suffix)` */
  predicate EndsWith(s: string, suffix: string) {
    |suffix| <= |s| && s[|s| - |suffix|..] == suffix
  }

  /** `s.startswith(prefix)` */
  predicate StartsWith(s: string, prefix: string) {
    |prefix| <= |s| && s[..|prefix|] == prefix
  }

  /** `pat in s`: `pat` occurs somewhere in `s` */
  predicate Occurs(s: string, pat: string)
    decreases |s|
  {
    StartsWith(s, pat) || (|s| > 0 && Occurs(s[1..], pat))
  }

  lemma {:induction false} EndsWithOccurs(s: string, pat: string)
    ensures EndsWith(s, pat) ==> Occurs(s, pat)
    decreases |s|
  {
    if EndsWith(s, pat) && !StartsWith(s, pat) {
      assert |s| > |pat|;
      assert s[1..][|s| - 1 - |pat|..] == s[|s| - |pat|..];
      EndsWithOccurs(s[1..], pat);
    }
  }

  /** Where a pattern occurs, so does each of its prefixes. */
  lemma {:induction false} OccursPrefix(s: string, a: string, b: string)
    ensures Occurs(s, a + b) ==> Occurs(s, a)
    decreases |s|
  {
    if StartsWith(s, a + b) {
      assert s[..|a|] == (a + b)[..|a|];
    } else if |s| > 0 {
      OccursPrefix(s[1..], a, b);
    }
  }

  lemma EndsWithTail(s: string, a: string, b: string)
    ensures EndsWith(s, a + b) ==> EndsWith(s, b)
  {
    if EndsWith(s, a + b) {
      assert s[|s| - |b|..] == s[|s| - |a + b|..][|a|..];
    }
  }

  /** `s.replace(pat, '')`: scanning from the left, every non-overlapping
      occurrence of `pat` is deleted, wherever it stands in `s`.  An empty
      pattern leaves `s` as it is, as Python does for an empty replacement. */
  function RemoveAll(s: string, pat: string): (r: string)
    ensures |r| <= |s|
    ensures |r| < |s| <==> |pat| > 0 && Occurs(s, pat)
    ensures |pat| == 0 || !Occurs(s, pat) ==> r == s
    decreases |s|
  {
    if |pat| == 0 || |s| == 0 then s
    else if StartsWith(s, pat) then RemoveAll(s[|pat|..], pat)
    else [s[0]] + RemoveAll(s[1..], pat)
  }

  /** When `pat` does not occur in `stem` and its first character does not
      reappear later in `pat`, no occurrence straddles the end of `stem`, so
      the first occurrence deleted from `stem + pat + rest` is the one right
      after `stem`. */
  lemma {:induction false} RemoveAllAfterStem(stem: string, pat: string, rest: string)
    requires |pat| > 0 && pat[0] !in pat[1..]
    requires !Occurs(stem, pat)
    ensures RemoveAll(stem + pat + rest, pat) == stem + RemoveAll(rest, pat)
    decreases |stem|
  {
    var s := stem + pat + rest;
    if stem == [] {
      assert s == pat + rest;
      assert StartsWith(s, pat);
      assert s[|pat|..] == rest;
    } else {
      assert s[0] == stem[0];
      assert s[1..] == stem[1..] + pat + rest;
      assert stem == [stem[0]] + stem[1..];
      assert !Occurs(stem[1..], pat);
      assert !StartsWith(s, pat) by {
        NoOccurrenceAcross(stem, pat, rest);
      }
      assert RemoveAll(s[1..], pat) == stem[1..] + RemoveAll(rest, pat) by {
        RemoveAllAfterStem(stem[1..], pat, rest);
      }
    }
  }

  /** The pattern does not start inside a non-empty stem free of it: it
      would either lie within the stem or run past the stem's end, and then
      its first character would reappear in the rest of it. */
  lemma NoOccurrenceAcross(stem: string, pat: string, rest: string)
    requires |pat| > 0 && pat[0] !in pat[1..]
    requires stem != [] && !Occurs(stem, pat)
    ensures !StartsWith(stem + pat + rest, pat)
  {
    var s := stem + pat + rest;
    if |stem| >= |pat| {
      assert s[..|pat|] == stem[..|pat|];
    } else {
      assert pat[|stem|] == pat[1..][|stem| - 1];
      assert s[..|pat|][|stem|] == pat[0] != pat[|stem|];
    }
  }

  /** Removing a suffix that occurs nowhere else: `"organization_id"`
      without `"_id"` is `"organization"`. */
  lemma RemoveAllSuffix(stem: string, pat: string)
    requires |pat| > 0 && pat[0] !in pat[1..]
    requires !Occurs(stem, pat)
    ensures RemoveAll(stem + pat, pat) == stem
  {
    RemoveAllAfterStem(stem, pat, []);
    assert stem + pat + [] == stem + pat;
  }

  // ASCII letter classes, as the regular expressions `[A-Z]`, `[a-z]`, `[0-9]` read them.

  predicate IsUpper(c: char) { 'A' <= c <= 'Z' }

  predicate IsLower(c: char) { 'a' <= c <= 'z' }

  predicate IsDigit(c: char) { '0' <= c <= '9' }

  function ToUpper(c: char): (r: char)
    ensures IsLower(c) ==> IsUpper(r)
    ensures !IsLower(c) ==> r == c
  {
    if IsLower(c) then (c as int - 32) as char else c
  }

  function ToLower(c: char): (r: char)
    ensures IsUpper(c) ==> IsLower(r)
    ensures !IsUpper(c) ==> r == c
    ensures !IsUpper(r)
  {
    if IsUpper(c) then (c as int + 32) as char else c
  }

  lemma CaseRoundTrip(c: char)
    ensures IsLower(c) ==> ToLower(ToUpper(c)) == c
    ensures IsUpper(c) ==> ToUpper(ToLower(c)) == c
  {
  }

  /** `s.lower()` */
  function Lower(s: string): (r: string)
    ensures |r| == |s|
    ensures forall i :: 0 <= i < |s| ==> r[i] == ToLower(s[i])
  {
    seq(|s|, i requires 0 <= i < |s| => ToLower(s[i]))
  }

  predicate NoUpper(s: string) {
    forall i :: 0 <= i < |s| ==> !IsUpper(s[i])
  }

  predicate AllLower(s: string) {
    forall i :: 0 <= i < |s| ==> IsLower(s[i])
  }

  lemma LowerAppend(a: string, b: string)
    ensures Lower(a + b) == Lower(a) + Lower(b)
  {
    assert forall i :: 0 <= i < |a + b| ==> Lower(a + b)[i] == (Lower(a) + Lower(b))[i];
  }

  lemma LowerOfNoUpper(s: string)
    requires NoUpper(s)
    ensures Lower(s) == s
  {
  }

  /** `s.capitalize()`: the first character upper-cased, the rest lower-cased. */
  function Capitalize(s: string): (r: string)
    ensures |r| == |s|
    ensures |s| > 0 ==> r[0] == ToUpper(s[0])
    ensures forall i :: 1 <= i < |s| ==> r[i] == ToLower(s[i])
  {
    if s == [] then [] else [ToUpper(s[0])] + Lower(s[1..])
  }

  lemma CapitalizeKeeps(s: string, c: char)
    requires !IsUpper(c) && !IsLower(c)
    ensures c in Capitalize(s) <==> c in s
  {
    var r := Capitalize(s);
    if c in s {
      var i :| 0 <= i < |s| && s[i] == c;
      assert r[i] == c;
    }
    if c in r {
      var i :| 0 <= i < |r| && r[i] == c;
      assert s[i] == c;
    }
  }

  /** `sep.join(words)` */
  function Join(words: seq<string>, sep: char): (r: string)
    decreases |words|
  {
    if |words| == 0 then []
    else if |words| == 1 then words[0]
    else words[0] + [sep] + Join(words[1..], sep)
  }

  /** `"".join(words)` */
  function Concat(words: seq<string>): (r: string)
    decreases |words|
  {
    if words == [] then [] else words[0] + Concat(words[1..])
  }

  lemma {:induction false} ConcatAvoids(words: seq<string>, c: char)
    requires forall i :: 0 <= i < |words| ==> c !in words[i]
    ensures c !in Concat(words)
    decreases |words|
  {
    if words != [] {
      ConcatAvoids(words[1..], c);
    }
  }

  /** `s` with every `c` deleted. */
  function Without(s: string, c: char): (r: string)
    ensures c !in r
    ensures c !in s ==> r == s
    decreases |s|
  {
    if s == [] then [] else (if s[0] == c then [] else [s[0]]) + Without(s[1..], c)
  }

  lemma {:induction false} WithoutAppend(a: string, b: string, c: char)
    ensures Without(a + b, c) == Without(a, c) + Without(b, c)
    decreases |a|
  {
    if a == [] {
      assert a + b == b;
    } else {
      assert (a + b)[1..] == a[1..] + b;
      WithoutAppend(a[1..], b, c);
    }
  }

  /** Deleting the separator from what was joined with it glues the words. */
  lemma {:induction false} WithoutJoin(words: seq<string>, sep: char)
    requires forall i :: 0 <= i < |words| ==> sep !in words[i]
    ensures Without(Join(words, sep), sep) == Concat(words)
    decreases |words|
  {
    if |words| == 1 {
      assert Concat(words) == words[0] + [] by {
        assert words[1..] == [];
      }
    } else if |words| > 1 {
      var rest := Join(words[1..], sep);
      assert Join(words, sep) == words[0] + ([sep] + rest);
      assert Without([sep] + rest, sep) == Without(rest, sep) by {
        assert ([sep] + rest)[1..] == rest;
      }
      WithoutAppend(words[0], [sep] + rest, sep);
      WithoutJoin(words[1..], sep);
    }
  }

  /** Lower-casing does not create or remove a non-letter. */
  lemma {:induction false} LowerWithout(s: string, c: char)
    requires !IsUpper(c) && !IsLower(c)
    ensures Lower(Without(s, c)) == Without(Lower(s), c)
    decreases |s|
  {
    if s != [] {
      assert Lower(s) == [ToLower(s[0])] + Lower(s[1..]);
      assert Lower(s)[1..] == Lower(s[1..]);
      LowerAppend(if s[0] == c then [] else [s[0]], Without(s[1..], c));
      LowerWithout(s[1..], c);
    }
  }

  lemma LowerCapitalize(s: string)
    ensures Lower(Capitalize(s)) == Lower(s)
  {
    if s != [] {
      assert Lower(Capitalize(s))[0] == Lower(s)[0];
    }
  }

  /** `s.split(sep)`: the pieces between separators, empty ones included;
      joining them back with `sep` gives `s`. */
  function Split(s: string, sep: char): (r: seq<string>)
    ensures |r| >= 1
    ensures forall i :: 0 <= i < |r| ==> sep !in r[i]
    ensures Join(r, sep) == s
    decreases |s|
  {
    if s == [] then [[]]
    else
      var t := Split(s[1..], sep);
      if s[0] == sep then
        assert Join([[]] + t, sep) == [] + [sep] + Join(t, sep);
        [[]] + t
      else
        var r := [[s[0]] + t[0]] + t[1..];
        assert |t| > 1 ==> Join(t, sep) == t[0] + [sep] + Join(t[1..], sep);
        assert |t| > 1 ==> Join(r, sep) == ([s[0]] + t[0]) + [sep] + Join(t[1..], sep) by {
          assert r[1..] == t[1..];
        }
        r
  }

  lemma {:induction false} SplitNoSep(x: string, y: string, sep: char)
    requires sep !in x
    ensures Split(x + y, sep) == [x + Split(y, sep)[0]] + Split(y, sep)[1..]
    decreases |x|
  {
    if x != [] {
      assert (x + y)[1..] == x[1..] + y;
      assert (x + y)[0] == x[0] != sep;
      SplitNoSep(x[1..], y, sep);
      var t := Split(x[1..] + y, sep);
      assert t[1..] == Split(y, sep)[1..];
      assert Split(x + y, sep) == [[x[0]] + t[0]] + t[1..];
      assert [x[0]] + t[0] == x + Split(y, sep)[0];
    } else {
      var b := Split(y, sep);
      assert x + y == y && x + b[0] == b[0];
      assert [b[0]] + b[1..] == b;
    }
  }

  /** Splitting what was joined gives the words back, when no word holds the separator. */
  lemma {:induction false} SplitJoin(words: seq<string>, sep: char)
    requires |words| >= 1
    requires forall i :: 0 <= i < |words| ==> sep !in words[i]
    ensures Split(Join(words, sep), sep) == words
    decreases |words|
  {
    if |words| == 1 {
      assert words[0] + [] == words[0];
      SplitNoSep(words[0], [], sep);
    } else {
      var rest := Join(words[1..], sep);
      assert Join(words, sep) == words[0] + ([sep] + rest);
      assert [words[0]] + words[1..] == words;
      assert words[0] + [] == words[0];
      assert Split([sep] + rest, sep) == [[]] + words[1..] by {
        assert ([sep] + rest)[0] == sep;
        assert ([sep] + rest)[1..] == rest;
        SplitJoin(words[1..], sep);
      }
      SplitNoSep(words[0], [sep] + rest, sep);
    }
  }
}
