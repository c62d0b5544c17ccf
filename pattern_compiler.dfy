/**
 * Translation of pattern templates such as "S(S(n" into PCRE regular
 * expressions: the template is escaped with `preg_quote`, wrapped as
 * "/.../i", and every occurrence of each element letter is then replaced,
 * element by element, with that element's regex fragment by `str_replace`.
 */
module PatternCompiler {

  /** One entry of the element table: a single-letter token and its regex fragment. */
  datatype Element = Element(key: char, fragment: string)

  /** 'S': an identifier such as a function name or `array`, optionally surrounded by blanks. */
  const SFragment: string := "[ \\t]*[a-z][a-z0-9_]+[ \\t]*"

  /** 'n': a line break immediately followed by an indentation of one or more blanks. */
  const NFragment: string := "[\\r\\n][ \\t]+"

  /** The element table, in the order the substitutions run. */
  const Elements: seq<Element> := [Element('S', SFragment), Element('n', NFragment)]

  /** The templates the survey looks for. */
  const Patterns: seq<string> := ["S(S(n", "S(nS(n"]

  // ---------------------------------------------------------------------------
  // preg_quote
  // ---------------------------------------------------------------------------

  /** The characters `preg_quote` escapes with a backslash (NUL is handled apart). */
  predicate IsSpecial(c: char)
  {
    c in {'.', '\\', '+', '*', '?', '[', '^', ']', '$', '(', ')', '{', '}',
          '=', '!', '<', '>', '|', ':', '-', '#'}
  }

  /** `preg_quote` of one character. */
  function QuoteChar(c: char): string
  {
    if c == '\0' then "\\000" else if IsSpecial(c) then ['\\', c] else [c]
  }

  /** `preg_quote(s)` without a delimiter argument. */
  function PregQuote(s: string): string
  {
    if s == [] then [] else QuoteChar(s[0]) + PregQuote(s[1..])
  }

  /** Reads the escapes `preg_quote` writes back to the characters they stand for. */
  function Unquote(r: string): string
  {
    if r == [] then []
    else if r[0] == '\\' && |r| >= 4 && r[1..4] == "000" then ['\0'] + Unquote(r[4..])
    else if r[0] == '\\' && |r| >= 2 then [r[1]] + Unquote(r[2..])
    else [r[0]] + Unquote(r[1..])
  }

  lemma UnquoteQuoteChar(c: char, rest: string)
    ensures Unquote(QuoteChar(c) + rest) == [c] + Unquote(rest)
  {
    var q := QuoteChar(c) + rest;
    if c == '\0' {
      assert q[1..4] == "000" && q[4..] == rest;
    } else if IsSpecial(c) {
      assert q[1] == c && q[2..] == rest;
    } else {
      assert q[1..] == rest;
    }
  }

  /** `preg_quote` loses nothing: the escaped text reads back as the original. */
  lemma {:induction false} UnquotePregQuote(s: string)
    ensures Unquote(PregQuote(s)) == s
  {
    if s != [] {
      UnquoteQuoteChar(s[0], PregQuote(s[1..]));
      UnquotePregQuote(s[1..]);
    }
  }

  // ---------------------------------------------------------------------------
  // str_replace with a one-letter search string
  // ---------------------------------------------------------------------------

  /**
   * `str_replace(search, replace, subject)`: every occurrence of `search` is
   * replaced, left to right, and the replacement text is not scanned again.
   */
  function StrReplace(search: char, replace: string, subject: string): string
  {
    if subject == [] then []
    else (if subject[0] == search then replace else [subject[0]])
         + StrReplace(search, replace, subject[1..])
  }

  /**
   * A subject without the search letter comes back unchanged, and when the
   * replacement does not hold the search letter, no occurrence is left.
   */
  lemma {:induction false} StrReplaceFacts(search: char, replace: string, subject: string)
    ensures search !in subject ==> StrReplace(search, replace, subject) == subject
    ensures search !in replace ==> search !in StrReplace(search, replace, subject)
  {
    if subject != [] {
      StrReplaceFacts(search, replace, subject[1..]);
    }
  }

  /** The inner loop of the compiler: one `str_replace` per element, in table order. */
  function ApplyElements(es: seq<Element>, s: string): string
  {
    if es == [] then s
    else ApplyElements(es[1..], StrReplace(es[0].key, es[0].fragment, s))
  }

  /** `'/' . preg_quote(template) . '/i'` with every element substituted. */
  function Compile(template: string, es: seq<Element>): string
  {
    ApplyElements(es, "/" + PregQuote(template) + "/i")
  }

  // ---------------------------------------------------------------------------
  // Substitution order
  // ---------------------------------------------------------------------------

  /** What one character of the escaped text becomes when all elements are substituted at once. */
  function SubstChar(es: seq<Element>, c: char): string
  {
    if es == [] then [c]
    else if es[0].key == c then es[0].fragment
    else SubstChar(es[1..], c)
  }

  /** Simultaneous substitution: every character is replaced independently of the others. */
  function Substitute(es: seq<Element>, s: string): string
  {
    if s == [] then [] else SubstChar(es, s[0]) + Substitute(es, s[1..])
  }

  /** No fragment contains the key of an element substituted after it. */
  predicate SafeOrder(es: seq<Element>)
  {
    forall i, j :: 0 <= i < j < |es| ==> es[j].key !in es[i].fragment
  }

  lemma {:induction false} SubstituteAppend(es: seq<Element>, a: string, b: string)
    ensures Substitute(es, a + b) == Substitute(es, a) + Substitute(es, b)
  {
    if a == [] {
      assert a + b == b;
    } else {
      assert (a + b)[0] == a[0] && (a + b)[1..] == a[1..] + b;
      SubstituteAppend(es, a[1..], b);
    }
  }

  lemma {:induction false} SubstituteIdentity(es: seq<Element>, s: string)
    requires forall i :: 0 <= i < |es| ==> es[i].key !in s
    ensures Substitute(es, s) == s
  {
    if s != [] {
      SubstCharNoKey(es, s[0]);
      SubstituteIdentity(es, s[1..]);
    }
  }

  lemma {:induction false} SubstCharNoKey(es: seq<Element>, c: char)
    requires forall i :: 0 <= i < |es| ==> es[i].key != c
    ensures SubstChar(es, c) == [c]
  {
    if es != [] {
      SubstCharNoKey(es[1..], c);
    }
  }

  /** Replacing the first element and then substituting the rest at once is substituting all at once. */
  lemma {:induction false} ReplaceThenSubstitute(es: seq<Element>, s: string)
    requires |es| > 0
    requires forall j :: 1 <= j < |es| ==> es[j].key !in es[0].fragment
    ensures Substitute(es[1..], StrReplace(es[0].key, es[0].fragment, s)) == Substitute(es, s)
  {
    if s != [] {
      var e, rest, c := es[0], es[1..], s[0];
      var head := if c == e.key then e.fragment else [c];
      SubstituteAppend(rest, head, StrReplace(e.key, e.fragment, s[1..]));
      ReplaceThenSubstitute(es, s[1..]);
      if c == e.key {
        SubstituteIdentity(rest, e.fragment);
      } else {
        assert Substitute(rest, [c]) == SubstChar(rest, c) + Substitute(rest, []);
      }
    }
  }

  /**
   * Substitution order is safe: when no fragment contains a later element's
   * key, running the `str_replace` calls one after another is the same as
   * replacing every element letter of the original text at once.
   */
  lemma {:induction false} OrderSafe(es: seq<Element>, s: string)
    requires SafeOrder(es)
    ensures ApplyElements(es, s) == Substitute(es, s)
  {
    if es == [] {
      SubstituteIdentity(es, s);
    } else {
      assert SafeOrder(es[1..]) by {
        forall i, j | 0 <= i < j < |es[1..]| ensures es[1..][j].key !in es[1..][i].fragment {
          assert es[1..][j] == es[j + 1] && es[1..][i] == es[i + 1];
        }
      }
      assert forall j :: 1 <= j < |es| ==> es[j].key !in es[0].fragment;
      OrderSafe(es[1..], StrReplace(es[0].key, es[0].fragment, s));
      ReplaceThenSubstitute(es, s);
    }
  }

  // ---------------------------------------------------------------------------
  // The built-in table
  // ---------------------------------------------------------------------------

  /**
   * The S fragment holds no 'n' and the n fragment holds no 'S', so neither
   * substitution can rewrite the other's text; the built-in table is in a
   * safe order.
   */
  lemma ElementsSafeOrder()
    ensures 'n' !in SFragment && 'S' !in NFragment
    ensures SafeOrder(Elements)
  {
    assert 'n' !in SFragment;
  }

  /** What one template character becomes in a compiled built-in regex. */
  function ExpandChar(c: char): string
  {
    if c == 'S' then SFragment else if c == 'n' then NFragment else QuoteChar(c)
  }

  /** The compiled body of a template, read character by character. */
  function Expand(t: string): string
  {
    if t == [] then [] else ExpandChar(t[0]) + Expand(t[1..])
  }

  lemma {:induction false} SubstitutePregQuote(t: string)
    ensures Substitute(Elements, PregQuote(t)) == Expand(t)
  {
    if t != [] {
      var c := t[0];
      SubstituteAppend(Elements, QuoteChar(c), PregQuote(t[1..]));
      SubstitutePregQuote(t[1..]);
      if c == 'S' || c == 'n' {
        assert Substitute(Elements, QuoteChar(c)) == SubstChar(Elements, c) + Substitute(Elements, []);
      } else {
        SubstituteIdentity(Elements, QuoteChar(c));
      }
    }
  }

  /**
   * A template compiles to '/', then each character in turn ('S' as the S
   * fragment, 'n' as the n fragment, anything else as `preg_quote` escapes it),
   * then "/i".
   */
  lemma CompileElements(t: string)
    ensures Compile(t, Elements) == "/" + Expand(t) + "/i"
  {
    ElementsSafeOrder();
    var quoted := "/" + PregQuote(t) + "/i";
    OrderSafe(Elements, quoted);
    SubstituteAppend(Elements, "/" + PregQuote(t), "/i");
    SubstituteAppend(Elements, "/", PregQuote(t));
    SubstituteIdentity(Elements, "/");
    SubstituteIdentity(Elements, "/i");
    SubstitutePregQuote(t);
  }

  lemma ExpandCons(c: char, t: string)
    ensures Expand([c] + t) == ExpandChar(c) + Expand(t)
  {
    assert ([c] + t)[0] == c && ([c] + t)[1..] == t;
  }

  lemma ExpandOne(c: char)
    ensures Expand([c]) == ExpandChar(c)
  {
    ExpandCons(c, []);
    assert [c] + [] == [c];
  }

  lemma {:induction false} NoSInExpand(t: string)
    ensures 'S' !in Expand(t)
  {
    if t != [] {
      assert 'S' !in SFragment && 'S' !in NFragment;
      NoSInExpand(t[1..]);
    }
  }

  /** No 'S' is left in any regex compiled from the built-in table. */
  lemma NoSInCompiled(t: string)
    ensures 'S' !in Compile(t, Elements)
  {
    CompileElements(t);
    NoSInExpand(t);
  }

  lemma CompiledFromExpansion(t: string, body: string)
    requires Expand(t) == body
    ensures Compile(t, Elements) == "/" + body + "/i"
  {
    CompileElements(t);
  }

  /** The first built-in template compiles to S, `\(`, S, `\(`, n between the delimiters. */
  lemma CompiledFirstPattern()
    ensures Compile("S(S(n", Elements) ==
      "/" + (SFragment + "\\(" + SFragment + "\\(" + NFragment) + "/i"
  {
    ExpandFirstPattern();
    CompiledFromExpansion("S(S(n", SFragment + "\\(" + SFragment + "\\(" + NFragment);
  }

  /** The second built-in template compiles to S, `\(`, n, S, `\(`, n between the delimiters. */
  lemma CompiledSecondPattern()
    ensures Compile("S(nS(n", Elements) ==
      "/" + (SFragment + "\\(" + NFragment + SFragment + "\\(" + NFragment) + "/i"
  {
    ExpandSecondPattern();
    CompiledFromExpansion("S(nS(n", SFragment + "\\(" + NFragment + SFragment + "\\(" + NFragment);
  }

  lemma ExpandFirstPattern()
    ensures Expand("S(S(n") == SFragment + "\\(" + SFragment + "\\(" + NFragment
  {
    ExpandOne('n');
    ExpandCons('(', "n");
    ExpandCons('S', "(n");
    ExpandCons('(', "S(n");
    ExpandCons('S', "(S(n");
    assert ['S'] + "(S(n" == "S(S(n";
    assert ['('] + "S(n" == "(S(n";
    assert ['S'] + "(n" == "S(n";
    assert ['('] + "n" == "(n";
  }

  lemma ExpandSecondPattern()
    ensures Expand("S(nS(n") == SFragment + "\\(" + NFragment + SFragment + "\\(" + NFragment
  {
    ExpandOne('n');
    ExpandCons('(', "n");
    ExpandCons('S', "(n");
    ExpandCons('n', "S(n");
    ExpandCons('(', "nS(n");
    ExpandCons('S', "(nS(n");
    assert ['S'] + "(nS(n" == "S(nS(n";
    assert ['('] + "nS(n" == "(nS(n";
    assert ['n'] + "S(n" == "nS(n";
    assert ['S'] + "(n" == "S(n";
    assert ['('] + "n" == "(n";
  }
}
