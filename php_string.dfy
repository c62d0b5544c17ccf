/**
 * The two PHP string built-ins the survey's file filter relies on:
 * `strtolower` (ASCII case folding) and the extension part of `pathinfo`.
 */
module PhpString {

  /**
   * `strtolower` on one character: its result is never a capital letter, only
   * a capital letter changes, and a capital becomes a small letter.
   */
  function LowerChar(c: char): (r: char)
    ensures !('A' <= r <= 'Z')
    ensures r != c ==> 'A' <= c <= 'Z'
    ensures 'A' <= c <= 'Z' ==> 'a' <= r <= 'z'
  {
    if 'A' <= c <= 'Z' then (c as int + 32) as char else c
  }

  /** `strtolower`: each character passed through `LowerChar`. */
  function ToLower(s: string): string
  {
    if s == [] then [] else [LowerChar(s[0])] + ToLower(s[1..])
  }

  /** `strtolower` keeps the length, folds each character on its own and leaves no capital. */
  lemma {:induction false} ToLowerChars(s: string)
    ensures |ToLower(s)| == |s|
    ensures forall i :: 0 <= i < |s| ==> ToLower(s)[i] == LowerChar(s[i])
    ensures forall i :: 0 <= i < |s| ==> !('A' <= ToLower(s)[i] <= 'Z')
  {
    if s != [] {
      ToLowerChars(s[1..]);
      assert forall i :: 1 <= i < |s| ==> ToLower(s)[i] == ToLower(s[1..])[i - 1];
    }
  }

  /**
   * The extension that `pathinfo(path, PATHINFO_EXTENSION)` reports for a file
   * name: the text after the last '.', or the empty string when there is no '.'.
   */
  function Extension(name: string): string
  {
    if '.' !in name then ""
    else if name[|name| - 1] == '.' then ""
    else Extension(name[..|name| - 1]) + [name[|name| - 1]]
  }

  /**
   * The extension holds no '.'; it is empty when the name has no '.', and
   * otherwise it is the suffix of the name that directly follows a '.'.
   */
  lemma {:induction false} ExtensionAfterLastDot(name: string)
    ensures '.' !in Extension(name)
    ensures '.' !in name ==> Extension(name) == ""
    ensures '.' in name ==>
      var ext := Extension(name);
      |ext| < |name| && name[|name| - |ext| - 1] == '.' && name[|name| - |ext|..] == ext
  {
    if '.' in name && name[|name| - 1] != '.' {
      var init := name[..|name| - 1];
      assert '.' in init by {
        var k :| 0 <= k < |name| && name[k] == '.';
        assert init[k] == '.';
      }
      ExtensionAfterLastDot(init);
      var e := Extension(init);
      assert name[|init| - |e| ..] == init[|init| - |e| ..] + [name[|name| - 1]];
      assert name[|init| - |e| - 1] == init[|init| - |e| - 1];
    }
  }

  /** `strtolower(e) == 'php'` holds exactly for the eight spellings of "php" in any case. */
  lemma LowerIsPhp(e: string)
    ensures ToLower(e) == "php" <==>
      |e| == 3 && EitherCase(e[0], 'p', 'P') && EitherCase(e[1], 'h', 'H') && EitherCase(e[2], 'p', 'P')
  {
    ToLowerChars(e);
    var r := ToLower(e);
    if |e| == 3 {
      assert r == "php" <==> r[0] == 'p' && r[1] == 'h' && r[2] == 'p';
      LowerCharIs(e[0], 'p', 'P');
      LowerCharIs(e[1], 'h', 'H');
      LowerCharIs(e[2], 'p', 'P');
    }
  }

  /** Only the small letter and its capital lowercase to a given small letter. */
  lemma LowerCharIs(c: char, small: char, capital: char)
    requires 'a' <= small <= 'z' && capital as int == small as int - 32
    ensures LowerChar(c) == small <==> c == small || c == capital
  {
  }

  /** `c` is the small letter `small` or its capital `capital`. */
  predicate EitherCase(c: char, small: char, capital: char)
  {
    c == small || c == capital
  }

  /** The file name ends in '.' followed by "php" written in any mix of cases. */
  predicate EndsWithDotPhp(name: string)
  {
    |name| >= 4 && name[|name| - 4] == '.' && EitherCase(name[|name| - 3], 'p', 'P') &&
    EitherCase(name[|name| - 2], 'h', 'H') && EitherCase(name[|name| - 1], 'p', 'P')
  }

  /**
   * A file name has an extension that lowercases to "php" exactly when it ends
   * in '.' followed by "php" written in any mix of cases.
   */
  lemma PhpExtensionIff(name: string)
    ensures ToLower(Extension(name)) == "php" <==> EndsWithDotPhp(name)
  {
    if ToLower(Extension(name)) == "php" {
      PhpExtensionEndsWithDotPhp(name);
    }
    if EndsWithDotPhp(name) {
      DotPhpHasPhpExtension(name);
    }
  }

  lemma PhpExtensionEndsWithDotPhp(name: string)
    requires ToLower(Extension(name)) == "php"
    ensures EndsWithDotPhp(name)
  {
    var ext := Extension(name);
    var n := |name|;
    LowerIsPhp(ext);
    ExtensionAfterLastDot(name);
    assert '.' in name by { ToLowerChars(ext); }
    assert name[n - 3..] == ext;
    assert name[n - 3] == ext[0] && name[n - 2] == ext[1] && name[n - 1] == ext[2];
  }

  lemma DotPhpHasPhpExtension(name: string)
    requires EndsWithDotPhp(name)
    ensures ToLower(Extension(name)) == "php"
  {
    var ext := Extension(name);
    var n := |name|;
    assert '.' in name by { assert name[n - 4] == '.'; }
    ExtensionAfterLastDot(name);
    assert name[n - |ext|..] == ext;
    assert ext == name[n - 3..];
    LowerIsPhp(ext);
  }
}
