/** Replacement names of `config/migrate-code-file-duplicates.js`. */
module CodeFileNames {
  import opened Text

  /** Index of the last `c` in `s`, -1 when there is none. */
  function LastIndex(s: string, c: char): (i: int)
    ensures -1 <= i < |s|
    ensures i >= 0 ==> s[i] == c
    ensures forall k :: i < k < |s| ==> s[k] != c
  {
    if s == [] then -1
    else if s[|s| - 1] == c then |s| - 1
    else LastIndex(s[..|s| - 1], c)
  }

  /** `path.extname` of a name without path separators: nothing for a name whose only dot leads it, and for `..`. */
  function ExtName(filename: string): (ext: string)
    ensures |ext| <= |filename| && filename[|filename| - |ext|..] == ext
  {
    var dot := LastIndex(filename, '.');
    if dot <= 0 || filename == ".." then "" else filename[dot..]
  }

  function BaseName(filename: string): string {
    filename[..|filename| - |ExtName(filename)|]
  }

  function Mark(n: nat): string {
    " (" + Decimal(n) + ")"
  }

  function SuffixFilename(filename: string, n: nat): string {
    BaseName(filename) + Mark(n) + ExtName(filename)
  }

  lemma LastIndexIs(s: string, c: char, i: int)
    requires -1 <= i < |s|
    requires i >= 0 ==> s[i] == c
    requires forall k :: i < k < |s| ==> s[k] != c
    ensures LastIndex(s, c) == i
  {
  }

  /** The extension of the original name can be read off the suffixed one. */
  function SuffixedExt(name: string): string {
    var dot := LastIndex(name, '.');
    if dot <= 1 then "" else name[dot..]
  }

  lemma ExtRecovered(filename: string, n: nat)
    ensures SuffixedExt(SuffixFilename(filename, n)) == ExtName(filename)
  {
    var base, ext, name := BaseName(filename), ExtName(filename), SuffixFilename(filename, n);
    var dot := LastIndex(filename, '.');
    assert filename == base + ext;
    MarkPlain(n);
    if ext == "" {
      assert base == filename;
      assert forall k :: dot < k < |name| ==> name[k] != '.' by {
        forall k | dot < k < |name| ensures name[k] != '.' {
          if k >= |base| { assert name[k] == Mark(n)[k - |base|]; }
        }
      }
      LastIndexIs(name, '.', dot);
    } else {
      assert dot == |base|;
      var at := |base| + |Mark(n)|;
      assert name[at] == ext[0] == '.';
      forall k | at < k < |name| ensures name[k] != '.' {
        assert name[k] == ext[k - at] == filename[k - |Mark(n)|];
      }
      LastIndexIs(name, '.', at);
      assert name[at..] == ext;
    }
  }

  lemma MarkPlain(n: nat)
    ensures |Mark(n)| >= 4
    ensures forall k :: 0 <= k < |Mark(n)| ==> Mark(n)[k] != '.'
    ensures Mark(n)[1] == '(' && forall k :: 1 < k < |Mark(n)| ==> Mark(n)[k] != '('
  {
    var d := Decimal(n);
    forall k | 0 <= k < |Mark(n)| ensures Mark(n)[k] != '.' && (k > 1 ==> Mark(n)[k] != '(') {
      if 2 <= k < 2 + |d| { assert Mark(n)[k] == d[k - 2]; }
    }
  }

  lemma MarkedInjective(a: string, m: nat, b: string, n: nat)
    requires a + Mark(m) == b + Mark(n)
    ensures a == b && m == n
  {
    var x := a + Mark(m);
    OpeningParenthesis(a, m);
    OpeningParenthesis(b, n);
    assert x[..|a|] == a && x[..|b|] == b;
    assert x[|a|..] == Mark(m) && x[|b|..] == Mark(n);
    assert Mark(m)[2..|Mark(m)| - 1] == Decimal(m) && Mark(n)[2..|Mark(n)| - 1] == Decimal(n);
    ParseDecimal(m);
    ParseDecimal(n);
  }

  lemma OpeningParenthesis(a: string, m: nat)
    ensures LastIndex(a + Mark(m), '(') == |a| + 1
  {
    MarkPlain(m);
    var x := a + Mark(m);
    forall k | |a| + 1 < k < |x| ensures x[k] != '(' { assert x[k] == Mark(m)[k - |a|]; }
    LastIndexIs(x, '(', |a| + 1);
  }

  /** A name with a stem and an extension gets the number between the two; the name `..` has neither. */
  lemma NumberBeforeExtension(stem: string, ext: string, n: nat)
    requires stem != "" && '.' !in ext && (stem != "." || ext != "")
    ensures SuffixFilename(stem + "." + ext, n) == stem + " (" + Decimal(n) + ")." + ext
  {
    var name := stem + "." + ext;
    LastIndexIs(name, '.', |stem|);
    assert name[|stem|..] == "." + ext && name[..|stem|] == stem;
    assert |name| == |stem| + 1 + |ext|;
    assert name != "..";
    assert ExtName(name) == "." + ext;
    assert Mark(n) == " (" + Decimal(n) + ")";
    assert stem + (" (" + Decimal(n) + ")") + ("." + ext) == stem + " (" + Decimal(n) + ")." + ext;
  }

  /** Any other name keeps its shape and gets the number at its end. */
  lemma NumberAtEnd(name: string, n: nat)
    requires name == ".." || forall k :: 1 <= k < |name| ==> name[k] != '.'
    ensures SuffixFilename(name, n) == name + " (" + Decimal(n) + ")"
  {
    assert ExtName(name) == "";
    assert name[..|name|] == name;
    assert Mark(n) == " (" + Decimal(n) + ")";
    assert name + (" (" + Decimal(n) + ")") + "" == name + " (" + Decimal(n) + ")";
  }

  /** Different names, or different numbers, never give the same replacement. */
  lemma SuffixInjective(f: string, m: nat, g: string, n: nat)
    requires SuffixFilename(f, m) == SuffixFilename(g, n)
    ensures f == g && m == n
  {
    ExtRecovered(f, m);
    ExtRecovered(g, n);
    var name, ext := SuffixFilename(f, m), ExtName(f);
    assert name[..|name| - |ext|] == BaseName(f) + Mark(m);
    assert name[..|name| - |ext|] == BaseName(g) + Mark(n);
    MarkedInjective(BaseName(f), m, BaseName(g), n);
    assert f == BaseName(f) + ext && g == BaseName(g) + ext;
  }

  // ----- the first free name

  ghost predicate AllTaken(filename: string, taken: set<string>, n: nat) {
    forall k :: 1 <= k < n ==> SuffixFilename(filename, k) in taken
  }

  /** As many different candidates as were tried are taken. */
  lemma TriesBounded(filename: string, taken: set<string>, n: nat)
    requires n >= 1 && AllTaken(filename, taken, n)
    ensures n - 1 <= |taken|
  {
    hide SuffixFilename;
    var tried := TriedNames(filename, n);
    TriedCount(filename, n);
    forall x | x in tried ensures x in taken {}
    assert taken == tried + (taken - tried);
    assert |taken| == |tried| + |taken - tried|;
  }

  function TriedNames(filename: string, n: nat): set<string> {
    set k | 1 <= k < n :: SuffixFilename(filename, k)
  }

  lemma {:induction false} TriedCount(filename: string, n: nat)
    requires n >= 1
    ensures |TriedNames(filename, n)| == n - 1
  {
    hide SuffixFilename;
    if n > 1 {
      TriedCount(filename, n - 1);
      var last := SuffixFilename(filename, n - 1);
      assert TriedNames(filename, n) == TriedNames(filename, n - 1) + {last};
      if last in TriedNames(filename, n - 1) {
        var k :| 1 <= k < n - 1 && SuffixFilename(filename, k) == last;
        SuffixInjective(filename, k, filename, n - 1);
      }
    } else {
      assert TriedNames(filename, n) == {};
    }
  }

  /** The least number from `n` on whose candidate is free. */
  function FirstFree(filename: string, taken: set<string>, n: nat): (r: nat)
    requires n >= 1 && AllTaken(filename, taken, n)
    ensures r >= 1 && SuffixFilename(filename, r) !in taken && AllTaken(filename, taken, r)
    ensures r <= |taken| + 1
    decreases |taken| + 1 - n
  {
    TriesBounded(filename, taken, n);
    if SuffixFilename(filename, n) !in taken then n
    else
      TriesBounded(filename, taken, n + 1);
      FirstFree(filename, taken, n + 1)
  }

  function NextName(filename: string, taken: set<string>): (name: string)
    ensures name !in taken
  {
    SuffixFilename(filename, FirstFree(filename, taken, 1))
  }

  lemma FirstFreeIs(filename: string, taken: set<string>, n: nat, r: nat)
    requires n >= 1 && AllTaken(filename, taken, n)
    requires r >= 1 && SuffixFilename(filename, r) !in taken && AllTaken(filename, taken, r)
    ensures FirstFree(filename, taken, n) == r
  {
    hide SuffixFilename;
    var found := FirstFree(filename, taken, n);
    assert SuffixFilename(filename, found) !in taken && SuffixFilename(filename, r) !in taken;
  }

  /** The loop of `nextAvailableName`; the caller's set is returned with the name added. */
  method NextAvailableName(filename: string, taken: set<string>) returns (name: string, taken': set<string>)
    ensures name == NextName(filename, taken)
    ensures taken' == taken + {name}
  {
    hide SuffixFilename;
    var n := 1;
    while true
      invariant n >= 1 && AllTaken(filename, taken, n)
      decreases |taken| + 1 - n
    {
      var candidate := SuffixFilename(filename, n);
      if candidate !in taken {
        FirstFreeIs(filename, taken, 1, n);
        return candidate, taken + {candidate};
      }
      TriesBounded(filename, taken, n + 1);
      n := n + 1;
    }
  }
}
