/**
 * The directory tree a survey walks, held in memory, and the total it should
 * produce for one compiled pattern: the sum of the match counts of the
 * eligible files.
 */
module FileTree {
  import opened PhpString

  /**
   * One directory entry: a directory with its listing, a regular file with its
   * content, or anything else (a socket, a device, a dangling link).
   */
  datatype Node =
    | Dir(name: string, children: seq<Node>)
    | File(name: string, content: string)
    | Other(name: string)

  /** The count `preg_match_all` reports for a compiled regex on a file's content. */
  type MatchCounter = (string, string) -> nat

  /** `DirectoryIterator::isDot`: the entries "." and "..". */
  predicate IsDot(name: string)
  {
    name == "." || name == ".."
  }

  /** A regular file is analysed when its extension, lowercased, is "php". */
  predicate IsPhpFile(name: string)
  {
    ToLower(Extension(name)) == "php"
  }

  /** What one entry of a listing adds to the total for `regex`. */
  function NodeCount(regex: string, n: Node, matchCount: MatchCounter): nat
    decreases n
  {
    match n
    case Dir(_, children) => ChildrenCount(regex, children, matchCount)
    case File(name, content) => if IsPhpFile(name) then matchCount(regex, content) else 0
    case Other(_) => 0
  }

  /** What a directory listing adds to the total for `regex`; dot entries add nothing. */
  function ChildrenCount(regex: string, children: seq<Node>, matchCount: MatchCounter): nat
    decreases children
  {
    if children == [] then 0
    else
      var last := children[|children| - 1];
      ChildrenCount(regex, children[..|children| - 1], matchCount)
      + (if IsDot(last.name) then 0 else NodeCount(regex, last, matchCount))
  }

  /** The contents of the eligible files under a node, in walk order. */
  function EligibleFiles(n: Node): seq<string>
  {
    match n
    case Dir(_, children) => ChildrenFiles(children)
    case File(name, content) => if IsPhpFile(name) then [content] else []
    case Other(_) => []
  }

  /** The contents of the eligible files under a listing, in walk order. */
  function ChildrenFiles(children: seq<Node>): seq<string>
    decreases children
  {
    if children == [] then []
    else
      var last := children[|children| - 1];
      ChildrenFiles(children[..|children| - 1])
      + (if IsDot(last.name) then [] else EligibleFiles(last))
  }

  /** The sum of the match counts of `regex` over a list of contents. */
  function SumCounts(regex: string, contents: seq<string>, matchCount: MatchCounter): nat
  {
    if contents == [] then 0
    else matchCount(regex, contents[0]) + SumCounts(regex, contents[1..], matchCount)
  }

  lemma {:induction false} SumCountsAppend(
    regex: string, a: seq<string>, b: seq<string>, matchCount: MatchCounter)
    ensures SumCounts(regex, a + b, matchCount)
         == SumCounts(regex, a, matchCount) + SumCounts(regex, b, matchCount)
  {
    if a == [] {
      assert a + b == b;
    } else {
      assert (a + b)[0] == a[0] && (a + b)[1..] == a[1..] + b;
      SumCountsAppend(regex, a[1..], b, matchCount);
    }
  }

  /**
   * The total for a node is the sum of the match counts over exactly the
   * eligible files under it: nothing else contributes.
   */
  lemma {:induction false} NodeCountIsSum(regex: string, n: Node, matchCount: MatchCounter)
    ensures NodeCount(regex, n, matchCount) == SumCounts(regex, EligibleFiles(n), matchCount)
    decreases n
  {
    match n
    case Dir(_, children) => ChildrenCountIsSum(regex, children, matchCount);
    case File(name, content) =>
      assert SumCounts(regex, [content], matchCount)
          == matchCount(regex, content) + SumCounts(regex, [], matchCount);
    case Other(_) =>
  }

  lemma {:induction false} ChildrenCountIsSum(
    regex: string, children: seq<Node>, matchCount: MatchCounter)
    ensures ChildrenCount(regex, children, matchCount)
         == SumCounts(regex, ChildrenFiles(children), matchCount)
    decreases children
  {
    if children != [] {
      var init, last := children[..|children| - 1], children[|children| - 1];
      ChildrenCountIsSum(regex, init, matchCount);
      if !IsDot(last.name) {
        NodeCountIsSum(regex, last, matchCount);
      }
      SumCountsAppend(regex, ChildrenFiles(init),
                      if IsDot(last.name) then [] else EligibleFiles(last), matchCount);
    }
  }

  /** A listing's total is the sum of the totals of its two halves. */
  lemma {:induction false} ChildrenCountAppend(
    regex: string, a: seq<Node>, b: seq<Node>, matchCount: MatchCounter)
    ensures ChildrenCount(regex, a + b, matchCount)
         == ChildrenCount(regex, a, matchCount) + ChildrenCount(regex, b, matchCount)
    decreases |b|
  {
    if b == [] {
      assert a + b == a;
    } else {
      var bi := b[..|b| - 1];
      assert (a + b)[..|a + b| - 1] == a + bi;
      assert (a + b)[|a + b| - 1] == b[|b| - 1];
      ChildrenCountAppend(regex, a, bi, matchCount);
    }
  }

  /** What a directory listing of one entry adds. */
  function EntryCount(regex: string, n: Node, matchCount: MatchCounter): nat
  {
    if IsDot(n.name) then 0 else NodeCount(regex, n, matchCount)
  }

  /** Walking one more entry of a listing adds that entry's count. */
  lemma ChildrenCountSnoc(regex: string, children: seq<Node>, i: nat, matchCount: MatchCounter)
    requires i < |children|
    ensures ChildrenCount(regex, children[..i + 1], matchCount)
         == ChildrenCount(regex, children[..i], matchCount) + EntryCount(regex, children[i], matchCount)
  {
    assert children[..i + 1][..i] == children[..i];
  }

  lemma ChildrenCountSingle(regex: string, n: Node, matchCount: MatchCounter)
    ensures ChildrenCount(regex, [n], matchCount) == EntryCount(regex, n, matchCount)
  {
    assert [n][..0] == [];
  }

  /**
   * The order of a listing does not matter: two listings holding the same
   * entries, in any order, give the same total.
   */
  lemma {:induction false} ChildrenCountPermutation(
    regex: string, xs: seq<Node>, ys: seq<Node>, matchCount: MatchCounter)
    requires multiset(xs) == multiset(ys)
    ensures ChildrenCount(regex, xs, matchCount) == ChildrenCount(regex, ys, matchCount)
    decreases |xs|
  {
    if xs == [] {
      assert |ys| == |multiset(ys)| == 0;
    } else {
      var init, last := xs[..|xs| - 1], xs[|xs| - 1];
      assert xs == init + [last];
      var k := MatchLast(xs, ys);
      assert ys == ys[..k] + [last] + ys[k + 1..];
      ChildrenCountPermutation(regex, init, ys[..k] + ys[k + 1..], matchCount);
      ChildrenCountAppend(regex, init, [last], matchCount);
      ChildrenCountAppend(regex, ys[..k] + [last], ys[k + 1..], matchCount);
      ChildrenCountAppend(regex, ys[..k], [last], matchCount);
      ChildrenCountAppend(regex, ys[..k], ys[k + 1..], matchCount);
      ChildrenCountSingle(regex, last, matchCount);
    }
  }

  /** Taking the element at `k` out of a sequence takes one copy of it out of its multiset. */
  lemma MultisetRemove<T>(s: seq<T>, k: nat)
    requires k < |s|
    ensures multiset(s[..k] + s[k + 1..]) == multiset(s) - multiset{s[k]}
  {
    assert s == s[..k] + [s[k]] + s[k + 1..];
  }

  /** In a permutation of `a`, some position holds `a`'s first element, and the rest match up. */
  lemma MatchFirst<T>(a: seq<T>, b: seq<T>) returns (k: nat)
    requires |a| > 0 && multiset(a) == multiset(b)
    ensures k < |b| && b[k] == a[0]
    ensures multiset(a[1..]) == multiset(b[..k] + b[k + 1..])
  {
    assert a[0] in multiset(b);
    k :| 0 <= k < |b| && b[k] == a[0];
    MultisetRemove(a, 0);
    MultisetRemove(b, k);
    assert a[..0] + a[1..] == a[1..];
  }

  /** In a permutation of `a`, some position holds `a`'s last element, and the rest match up. */
  lemma MatchLast<T>(a: seq<T>, b: seq<T>) returns (k: nat)
    requires |a| > 0 && multiset(a) == multiset(b)
    ensures k < |b| && b[k] == a[|a| - 1]
    ensures multiset(a[..|a| - 1]) == multiset(b[..k] + b[k + 1..])
  {
    assert a[|a| - 1] in multiset(b);
    k :| 0 <= k < |b| && b[k] == a[|a| - 1];
    MultisetRemove(a, |a| - 1);
    MultisetRemove(b, k);
    assert a[..|a| - 1] + a[|a|..] == a[..|a| - 1];
  }

  /** The order of the files does not matter: the same contents in any order have the same sum. */
  lemma {:induction false} SumCountsPermutation(
    regex: string, a: seq<string>, b: seq<string>, matchCount: MatchCounter)
    requires multiset(a) == multiset(b)
    ensures SumCounts(regex, a, matchCount) == SumCounts(regex, b, matchCount)
    decreases |a|
  {
    if a == [] {
      assert |b| == |multiset(b)| == 0;
    } else {
      var k := MatchFirst(a, b);
      SumCountsPermutation(regex, a[1..], b[..k] + b[k + 1..], matchCount);
      SumCountsRemove(regex, b, k, matchCount);
    }
  }

  /** Taking one file out of a list takes its match count out of the sum. */
  lemma SumCountsRemove(regex: string, b: seq<string>, k: nat, matchCount: MatchCounter)
    requires k < |b|
    ensures SumCounts(regex, b, matchCount)
         == matchCount(regex, b[k]) + SumCounts(regex, b[..k] + b[k + 1..], matchCount)
  {
    var pre, mid, post := b[..k], [b[k]], b[k + 1..];
    assert b == pre + mid + post;
    SumCountsAppend(regex, pre + mid, post, matchCount);
    SumCountsAppend(regex, pre, mid, matchCount);
    SumCountsAppend(regex, pre, post, matchCount);
    assert SumCounts(regex, mid, matchCount) == matchCount(regex, b[k]) + SumCounts(regex, [], matchCount);
  }

  /**
   * Replacing one entry of a listing, wherever it stands, by an entry that
   * adds the same count keeps the listing's total. With
   * `ChildrenCountPermutation` this covers reordering a listing at any depth.
   */
  lemma ChildrenCountReplace(regex: string, a: seq<Node>, x: Node, y: Node, b: seq<Node>,
                             matchCount: MatchCounter)
    requires EntryCount(regex, x, matchCount) == EntryCount(regex, y, matchCount)
    ensures ChildrenCount(regex, a + [x] + b, matchCount) == ChildrenCount(regex, a + [y] + b, matchCount)
  {
    ChildrenCountAppend(regex, a + [x], b, matchCount);
    ChildrenCountAppend(regex, a, [x], matchCount);
    ChildrenCountAppend(regex, a + [y], b, matchCount);
    ChildrenCountAppend(regex, a, [y], matchCount);
    ChildrenCountSingle(regex, x, matchCount);
    ChildrenCountSingle(regex, y, matchCount);
  }

  /** An empty directory, or one holding only "." and "..", has total zero. */
  lemma EmptyDirCount(regex: string, name: string, dots: seq<Node>, matchCount: MatchCounter)
    requires forall i :: 0 <= i < |dots| ==> IsDot(dots[i].name)
    ensures NodeCount(regex, Dir(name, dots), matchCount) == 0
  {
    DotsCountZero(regex, dots, matchCount);
  }

  lemma {:induction false} DotsCountZero(regex: string, dots: seq<Node>, matchCount: MatchCounter)
    requires forall i :: 0 <= i < |dots| ==> IsDot(dots[i].name)
    ensures ChildrenCount(regex, dots, matchCount) == 0
    decreases |dots|
  {
    if dots != [] {
      DotsCountZero(regex, dots[..|dots| - 1], matchCount);
    }
  }

  /** "a.php" and "a.PHP" are analysed; "a.txt" and "a" are not. */
  lemma EligibilityExamples()
    ensures IsPhpFile("a.php") && IsPhpFile("a.PHP")
    ensures !IsPhpFile("a.txt") && !IsPhpFile("a")
  {
    PhpExtensionIff("a.php");
    PhpExtensionIff("a.PHP");
    PhpExtensionIff("a.txt");
    PhpExtensionIff("a");
  }

  /**
   * Extension filtering: in a directory holding "a.php", "a.PHP", "a.txt", a
   * file without extension, a socket and an empty subdirectory, only the two
   * ".php" files count.
   */
  lemma ExtensionFilterExample(
    regex: string, c1: string, c2: string, c3: string, c4: string, matchCount: MatchCounter)
    ensures NodeCount(regex, Dir("root", [File("a.php", c1), File("a.PHP", c2), File("a.txt", c3),
                                         File("a", c4), Other("sock"), Dir("sub", [])]), matchCount)
         == matchCount(regex, c1) + matchCount(regex, c2)
  {
    EligibilityExamples();
    var a, b, c, d, e, f :=
      File("a.php", c1), File("a.PHP", c2), File("a.txt", c3), File("a", c4), Other("sock"), Dir("sub", []);
    var listing := [a, b, c, d, e, f];
    assert EntryCount(regex, a, matchCount) == matchCount(regex, c1);
    assert EntryCount(regex, b, matchCount) == matchCount(regex, c2);
    assert EntryCount(regex, c, matchCount) == 0 && EntryCount(regex, d, matchCount) == 0;
    assert EntryCount(regex, e, matchCount) == 0 && EntryCount(regex, f, matchCount) == 0;
    SixEntries(regex, a, b, c, d, e, f, matchCount);
  }

  lemma SixEntries(regex: string, a: Node, b: Node, c: Node, d: Node, e: Node, f: Node,
                   matchCount: MatchCounter)
    ensures ChildrenCount(regex, [a, b, c, d, e, f], matchCount)
         == EntryCount(regex, a, matchCount) + EntryCount(regex, b, matchCount)
          + EntryCount(regex, c, matchCount) + EntryCount(regex, d, matchCount)
          + EntryCount(regex, e, matchCount) + EntryCount(regex, f, matchCount)
  {
    var xs := [a, b, c, d, e, f];
    assert xs[..5] == [a, b, c, d, e];
    assert [a, b, c, d, e][..4] == [a, b, c, d];
    assert [a, b, c, d][..3] == [a, b, c];
    assert [a, b, c][..2] == [a, b];
    assert [a, b][..1] == [a];
    ChildrenCountSingle(regex, a, matchCount);
    assert ChildrenCount(regex, [a, b], matchCount)
        == ChildrenCount(regex, [a], matchCount) + EntryCount(regex, b, matchCount);
    assert ChildrenCount(regex, [a, b, c], matchCount)
        == ChildrenCount(regex, [a, b], matchCount) + EntryCount(regex, c, matchCount);
    assert ChildrenCount(regex, [a, b, c, d], matchCount)
        == ChildrenCount(regex, [a, b, c], matchCount) + EntryCount(regex, d, matchCount);
    assert ChildrenCount(regex, [a, b, c, d, e], matchCount)
        == ChildrenCount(regex, [a, b, c, d], matchCount) + EntryCount(regex, e, matchCount);
  }
}
