/**
 * The survey engine: compiles the templates once, then, for each survey,
 * resets its counters, walks a directory tree and adds every PHP file's match
 * counts to the counter of each template.
 */
module Survey {
  import opened PatternCompiler
  import opened FileTree

  /** No template is listed twice. */
  predicate NoDuplicates(patterns: seq<string>)
  {
    forall i, j :: 0 <= i < j < |patterns| ==> patterns[i] != patterns[j]
  }

  /** The set of templates. */
  function PatternSet(patterns: seq<string>): set<string>
  {
    set p | p in patterns
  }

  /** Each template keyed to its compiled regex. */
  function CompiledTable(patterns: seq<string>, es: seq<Element>): map<string, string>
  {
    map p | p in patterns :: Compile(p, es)
  }

  /** Each template keyed to zero. */
  function ZeroTable(patterns: seq<string>): map<string, nat>
  {
    map p | p in patterns :: 0
  }

  /**
   * What a survey of `root` should return for a table of compiled regexes:
   * each template keyed to the sum of the match counts of its regex over the
   * eligible files of the tree.
   */
  function SurveyResult(table: map<string, string>, root: Node, matchCount: MatchCounter)
    : map<string, nat>
  {
    map p | p in table :: NodeCount(table[p], root, matchCount)
  }

  /** Resetting a table whose keys are templates gives exactly the templates, each at zero. */
  lemma ResetTable(m: map<string, nat>, patterns: seq<string>)
    requires m.Keys <= PatternSet(patterns)
    ensures (m + ZeroTable(patterns)).Keys == PatternSet(patterns)
    ensures forall p | p in m + ZeroTable(patterns) :: (m + ZeroTable(patterns))[p] == 0
  {
  }

  /** Counters that hold each template's walk total are the survey's result. */
  lemma WalkTotals(counters: map<string, nat>, table: map<string, string>, root: Node,
                   matchCount: MatchCounter)
    requires counters.Keys == table.Keys
    requires forall p | p in counters :: counters[p] == NodeCount(table[p], root, matchCount)
    ensures counters == SurveyResult(table, root, matchCount)
  {
  }

  /** A survey's result has one entry per template of the table, and nothing else. */
  lemma SurveyResultKeys(patterns: seq<string>, es: seq<Element>, root: Node, matchCount: MatchCounter)
    ensures SurveyResult(CompiledTable(patterns, es), root, matchCount).Keys == PatternSet(patterns)
  {
    CompiledTableKeys(patterns, es);
  }

  /**
   * Each template's count is the sum, over the eligible files of the tree in
   * walk order, of the match counts of that template's regex.
   */
  lemma SurveyResultIsSum(table: map<string, string>, root: Node, matchCount: MatchCounter)
    ensures forall p | p in SurveyResult(table, root, matchCount) ::
      SurveyResult(table, root, matchCount)[p] == SumCounts(table[p], EligibleFiles(root), matchCount)
  {
    forall p | p in SurveyResult(table, root, matchCount)
      ensures SurveyResult(table, root, matchCount)[p] == SumCounts(table[p], EligibleFiles(root), matchCount)
    {
      NodeCountIsSum(table[p], root, matchCount);
    }
  }

  /** The order in which the directory lists its entries does not change the result. */
  lemma SurveyOrderIndependent(table: map<string, string>, name: string, xs: seq<Node>, ys: seq<Node>,
                               matchCount: MatchCounter)
    requires multiset(xs) == multiset(ys)
    ensures SurveyResult(table, Dir(name, xs), matchCount) == SurveyResult(table, Dir(name, ys), matchCount)
  {
    forall p | p in table
      ensures NodeCount(table[p], Dir(name, xs), matchCount) == NodeCount(table[p], Dir(name, ys), matchCount)
    {
      ChildrenCountPermutation(table[p], xs, ys, matchCount);
    }
  }

  /**
   * A survey's result depends only on which contents the tree's eligible files
   * hold, and how often, not on where they are nor in which order they are met.
   */
  lemma SurveyDependsOnFilesOnly(table: map<string, string>, r1: Node, r2: Node, matchCount: MatchCounter)
    requires multiset(EligibleFiles(r1)) == multiset(EligibleFiles(r2))
    ensures SurveyResult(table, r1, matchCount) == SurveyResult(table, r2, matchCount)
  {
    forall p | p in table
      ensures NodeCount(table[p], r1, matchCount) == NodeCount(table[p], r2, matchCount)
    {
      NodeCountIsSum(table[p], r1, matchCount);
      NodeCountIsSum(table[p], r2, matchCount);
      SumCountsPermutation(table[p], EligibleFiles(r1), EligibleFiles(r2), matchCount);
    }
  }

  /**
   * Reordering the listing of a subdirectory of the root, wherever it stands,
   * does not change the result. Applied level by level through
   * `ChildrenCountReplace`, the same holds for a reordering at any depth.
   */
  lemma SurveySubdirReorder(table: map<string, string>, name: string, before: seq<Node>, sub: string,
                            xs: seq<Node>, ys: seq<Node>, after: seq<Node>, matchCount: MatchCounter)
    requires multiset(xs) == multiset(ys)
    ensures SurveyResult(table, Dir(name, before + [Dir(sub, xs)] + after), matchCount)
         == SurveyResult(table, Dir(name, before + [Dir(sub, ys)] + after), matchCount)
  {
    forall p | p in table
      ensures ChildrenCount(table[p], before + [Dir(sub, xs)] + after, matchCount)
           == ChildrenCount(table[p], before + [Dir(sub, ys)] + after, matchCount)
    {
      ChildrenCountPermutation(table[p], xs, ys, matchCount);
      ChildrenCountReplace(table[p], before, Dir(sub, xs), Dir(sub, ys), after, matchCount);
    }
  }

  /** Surveying an empty directory, or one holding only "." and "..", counts zero for every template. */
  lemma SurveyEmptyDir(patterns: seq<string>, es: seq<Element>, name: string, dots: seq<Node>,
                       matchCount: MatchCounter)
    requires forall i :: 0 <= i < |dots| ==> IsDot(dots[i].name)
    ensures SurveyResult(CompiledTable(patterns, es), Dir(name, dots), matchCount) == ZeroTable(patterns)
  {
    forall p | p in patterns
      ensures NodeCount(Compile(p, es), Dir(name, dots), matchCount) == 0
    {
      EmptyDirCount(Compile(p, es), name, dots, matchCount);
    }
  }

  /** The built-in templates are distinct. */
  lemma BuiltinPatternsDistinct()
    ensures NoDuplicates(Patterns)
  {
  }

  lemma CompiledTableKeys(patterns: seq<string>, es: seq<Element>)
    ensures CompiledTable(patterns, es).Keys == PatternSet(patterns)
  {
  }

  lemma EmptyUnion(m: map<string, string>)
    ensures map[] + m == m
  {
  }

  lemma UpdateKeys(m: map<string, nat>, k: string, v: nat)
    requires k in m
    ensures m[k := v].Keys == m.Keys
  {
  }

  lemma UpdateUnion<V>(m: map<string, V>, t: map<string, V>, k: string, v: V)
    ensures (m + t)[k := v] == m + t[k := v]
  {
  }

  lemma PrefixSnoc(patterns: seq<string>, i: nat)
    requires i < |patterns|
    ensures forall p :: p in patterns[..i + 1] <==> p in patterns[..i] || p == patterns[i]
  {
    assert patterns[..i + 1] == patterns[..i] + [patterns[i]];
  }

  lemma CompiledTableSnoc(patterns: seq<string>, i: nat, es: seq<Element>)
    requires i < |patterns|
    ensures CompiledTable(patterns[..i + 1], es)
         == CompiledTable(patterns[..i], es)[patterns[i] := Compile(patterns[i], es)]
  {
    PrefixSnoc(patterns, i);
  }

  lemma ZeroTableSnoc(patterns: seq<string>, i: nat)
    requires i < |patterns|
    ensures ZeroTable(patterns[..i + 1]) == ZeroTable(patterns[..i])[patterns[i] := 0]
  {
    PrefixSnoc(patterns, i);
  }

  /** One turn of the compiler's outer loop records one more template. */
  lemma CompiledTableStep(m: map<string, string>, patterns: seq<string>, i: nat, es: seq<Element>,
                          quoted: string, regex: string)
    requires i < |patterns|
    requires quoted == "/" + PregQuote(patterns[i]) + "/i"
    requires ApplyElements(es[|es|..], regex) == ApplyElements(es, quoted)
    ensures (m + CompiledTable(patterns[..i], es))[patterns[i] := regex]
         == m + CompiledTable(patterns[..i + 1], es)
  {
    assert es[|es|..] == [];
    UpdateUnion(m, CompiledTable(patterns[..i], es), patterns[i], regex);
    CompiledTableSnoc(patterns, i, es);
  }

  lemma ApplyElementsStep(es: seq<Element>, j: nat, s: string)
    requires j < |es|
    ensures ApplyElements(es[j..], s) == ApplyElements(es[j + 1..], StrReplace(es[j].key, es[j].fragment, s))
  {
    assert es[j..][1..] == es[j + 1..];
  }

  class Surveyor {
    /** The templates to look for. */
    const patterns: seq<string>
    /** The element letters and their regex fragments, in substitution order. */
    const regexPatternElements: seq<Element>
    /** Each template keyed to its compiled regex; built by the constructor. */
    var regexPatterns: map<string, string>
    /** Each template keyed to its number of occurrences in the current survey. */
    var patternCounters: map<string, nat>

    /**
     * No template is listed twice, every template has a compiled regex, and
     * every counter belongs to a template. Counters are natural numbers, so
     * none is ever negative.
     */
    ghost predicate Valid()
      reads this
    {
      && NoDuplicates(patterns)
      && regexPatterns.Keys == PatternSet(patterns)
      && patternCounters.Keys <= PatternSet(patterns)
    }

    /** Valid, and every template has a counter: the state a survey runs in. */
    ghost predicate Ready()
      reads this
    {
      Valid() && patternCounters.Keys == PatternSet(patterns)
    }

    /** Sets up the built-in templates and elements and compiles the templates. */
    constructor()
      ensures Valid()
      ensures patterns == Patterns && regexPatternElements == Elements
      ensures regexPatterns == CompiledTable(patterns, regexPatternElements)
      ensures patternCounters == map[]
    {
      patterns := Patterns;
      regexPatternElements := Elements;
      regexPatterns := map[];
      patternCounters := map[];
      new;
      BuiltinPatternsDistinct();
      BuildRegexPatterns();
    }

    /**
     * Analyses each PHP file under the directory `root` and returns each
     * template's number of occurrences. Nothing from an earlier survey is kept.
     */
    method Survey(root: Node, matchCount: MatchCounter) returns (result: map<string, nat>)
      requires root.Dir?
      requires Valid()
      modifies this`patternCounters
      ensures Valid()
      ensures result == patternCounters
      ensures result == SurveyResult(regexPatterns, root, matchCount)
    {
      ResetPatternCount();
      ResetTable(old(patternCounters), patterns);
      Browse(root, matchCount);
      WalkTotals(patternCounters, regexPatterns, root, matchCount);
      result := patternCounters;
    }

    /**
     * Walks the listing of directory `dir`: skips "." and "..", descends into
     * subdirectories, and analyses regular files whose extension is "php" in
     * any case.
     */
    method Browse(dir: Node, matchCount: MatchCounter)
      requires dir.Dir?
      requires Ready()
      modifies this`patternCounters
      ensures Ready()
      ensures forall p | p in patternCounters ::
        patternCounters[p] == old(patternCounters[p]) + NodeCount(regexPatterns[p], dir, matchCount)
      decreases dir
    {
      var children := dir.children;
      var i := 0;
      while i < |children|
        invariant 0 <= i <= |children|
        invariant Ready()
        invariant forall p | p in patternCounters ::
          patternCounters[p] == old(patternCounters[p]) + ChildrenCount(regexPatterns[p], children[..i], matchCount)
      {
        var file := children[i];
        ghost var before := patternCounters;
        if !IsDot(file.name) {
          if file.Dir? {
            Browse(file, matchCount);
          } else if file.File? {
            if IsPhpFile(file.name) {
              Analyze(file.content, matchCount);
            }
          }
        }
        assert forall p | p in patternCounters ::
          patternCounters[p] == before[p] + EntryCount(regexPatterns[p], file, matchCount);
        forall p | p in patternCounters
          ensures patternCounters[p]
               == old(patternCounters[p]) + ChildrenCount(regexPatterns[p], children[..i + 1], matchCount)
        {
          ChildrenCountSnoc(regexPatterns[p], children, i, matchCount);
        }
        i := i + 1;
      }
      assert children[..|children|] == children;
    }

    /** Adds the match count of every compiled regex on `content` to that template's counter. */
    method Analyze(content: string, matchCount: MatchCounter)
      requires Ready()
      modifies this`patternCounters
      ensures Ready()
      ensures forall p | p in patternCounters ::
        patternCounters[p] == old(patternCounters[p]) + matchCount(regexPatterns[p], content)
    {
      ghost var before := patternCounters;
      assert NoDuplicates(patterns);
      var i := 0;
      while i < |patterns|
        invariant 0 <= i <= |patterns|
        invariant patternCounters.Keys == before.Keys
        invariant forall k :: 0 <= k < |patterns| ==>
          patternCounters[patterns[k]]
            == before[patterns[k]] + (if k < i then matchCount(regexPatterns[patterns[k]], content) else 0)
      {
        var pattern := patterns[i];
        var regexp := regexPatterns[pattern];
        assert forall k :: 0 <= k < |patterns| && k != i ==> patterns[k] != pattern;
        UpdateKeys(patternCounters, pattern, patternCounters[pattern] + matchCount(regexp, content));
        patternCounters := patternCounters[pattern := patternCounters[pattern] + matchCount(regexp, content)];
        i := i + 1;
      }
    }

    /** Sets the counter of every template to zero. */
    method ResetPatternCount()
      modifies this`patternCounters
      ensures patternCounters == old(patternCounters) + ZeroTable(patterns)
    {
      var i := 0;
      while i < |patterns|
        invariant 0 <= i <= |patterns|
        invariant patternCounters == old(patternCounters) + ZeroTable(patterns[..i])
      {
        UpdateUnion(patternCounters, ZeroTable(patterns[..i]), patterns[i], 0);
        patternCounters := patternCounters[patterns[i] := 0];
        ZeroTableSnoc(patterns, i);
        i := i + 1;
      }
      assert patterns[..|patterns|] == patterns;
    }

    /** Compiles every template and records it under the template itself. */
    method BuildRegexPatterns()
      modifies this`regexPatterns
      ensures regexPatterns == old(regexPatterns) + CompiledTable(patterns, regexPatternElements)
      ensures old(regexPatterns) == map[] ==> regexPatterns == CompiledTable(patterns, regexPatternElements)
      ensures old(regexPatterns) == map[] ==> regexPatterns.Keys == PatternSet(patterns)
    {
      var i := 0;
      while i < |patterns|
        invariant 0 <= i <= |patterns|
        invariant regexPatterns == old(regexPatterns) + CompiledTable(patterns[..i], regexPatternElements)
      {
        var pattern := patterns[i];
        var regex := "/" + PregQuote(pattern) + "/i";
        ghost var quoted := regex;
        var j := 0;
        while j < |regexPatternElements|
          invariant 0 <= j <= |regexPatternElements|
          invariant ApplyElements(regexPatternElements[j..], regex) == ApplyElements(regexPatternElements, quoted)
          invariant regexPatterns == old(regexPatterns) + CompiledTable(patterns[..i], regexPatternElements)
        {
          var element := regexPatternElements[j];
          ApplyElementsStep(regexPatternElements, j, regex);
          regex := StrReplace(element.key, element.fragment, regex);
          j := j + 1;
        }
        CompiledTableStep(old(regexPatterns), patterns, i, regexPatternElements, quoted, regex);
        regexPatterns := regexPatterns[pattern := regex];
        i := i + 1;
      }
      assert patterns[..|patterns|] == patterns;
      EmptyUnion(CompiledTable(patterns, regexPatternElements));
      CompiledTableKeys(patterns, regexPatternElements);
    }
  }
}
