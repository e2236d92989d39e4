/** internal/utils/utils.go: the uniform HTTP error value and the slug generator. */
module Utils {
  import opened Wrappers

  // ---------------------------------------------------------------------------
  // HTTPError
  // ---------------------------------------------------------------------------

  /** The JSON error body {code, message, details}; `details` is left out of the JSON when empty. */
  datatype HttpError = HttpError(code: int, message: string, details: string) {

    /** Go's `error` interface: the message, then ": " and the details when there are any. So
        the text always starts with the message, is exactly the message when the details are
        empty, and otherwise continues with ": " and the details. */
    function Error(): (r: string)
      ensures |message| <= |r| && r[..|message|] == message
      ensures r == message <==> details == ""
      ensures details != "" ==> |r| == |message| + 2 + |details| && r[|message|..|message| + 2] == ": " && r[|message| + 2..] == details
    {
      if details != "" then
        var t := message + ": " + details;
        assert t[..|message|] == message && t[|message|..|message| + 2] == ": " && t[|message| + 2..] == details;
        t
      else message
    }
  }

  /** NewHTTPError(code, message, err). A Go `error` is represented by its text `err.Error()`,
      and a nil error by None. */
  function NewHttpError(code: int, message: string, err: Option<string>): (r: HttpError)
    ensures r.code == code && r.message == message
    ensures err.None? ==> r.details == ""
    ensures err.Some? ==> r.details == err.value
  {
    var e := HttpError(code, message, "");
    if err.Some? then e.(details := err.value) else e
  }

  /** An error built without a cause prints as its bare message; one built with a cause whose text
      is non-empty prints as "message: cause"; a cause with empty text is indistinguishable from nil. */
  lemma NewHttpErrorText(code: int, message: string, err: Option<string>)
    ensures err.None? ==> NewHttpError(code, message, err).Error() == message
    ensures err.Some? && err.value != "" ==> NewHttpError(code, message, err).Error() == message + ": " + err.value
    ensures err == Some("") ==> NewHttpError(code, message, err) == NewHttpError(code, message, None)
  {
  }

  // ---------------------------------------------------------------------------
  // GenerateSlug
  // ---------------------------------------------------------------------------

  /** The characters the pattern [a-z0-9] accepts. */
  predicate IsSlugChar(c: char) {
    'a' <= c <= 'z' || '0' <= c <= '9'
  }

  /** ASCII letters and digits, in either case. */
  predicate IsAsciiAlnum(c: char) {
    'a' <= c <= 'z' || 'A' <= c <= 'Z' || '0' <= c <= '9'
  }

  /** ASCII lower-casing of one character. */
  function LowerChar(c: char): char {
    if 'A' <= c <= 'Z' then (c as int + 32) as char else c
  }

  /** strings.ToLower, restricted to ASCII. */
  function Lower(s: string): (r: string)
    ensures |r| == |s|
  {
    if s == [] then [] else [LowerChar(s[0])] + Lower(s[1..])
  }

  /** What is left of s after its leading run of characters outside [a-z0-9]. */
  function SkipRun(s: string): (r: string)
    ensures |r| <= |s|
    ensures r == [] || IsSlugChar(r[0])
  {
    if s != [] && !IsSlugChar(s[0]) then SkipRun(s[1..]) else s
  }

  /** regexp [^a-z0-9]+ ReplaceAllString "-": every maximal run of characters outside [a-z0-9]
      becomes one hyphen, the other characters are kept in order. What remains is made of
      [a-z0-9] and single hyphens, is empty only for the empty input, and keeps a leading
      [a-z0-9] character. */
  function ReplaceRuns(s: string): (r: string)
    ensures SlugAlphabet(r) && NoDoubleHyphen(r)
    ensures r == [] <==> s == []
    ensures s != [] && IsSlugChar(s[0]) ==> r[0] == s[0]
    decreases |s|
  {
    if s == [] then []
    else if IsSlugChar(s[0]) then
      var rt := ReplaceRuns(s[1..]);
      assert forall i :: 1 <= i < |[s[0]] + rt| ==> ([s[0]] + rt)[i] == rt[i - 1];
      [s[0]] + rt
    else
      var rt := ReplaceRuns(SkipRun(s[1..]));
      assert forall i :: 1 <= i < |"-" + rt| ==> ("-" + rt)[i] == rt[i - 1];
      "-" + rt
  }

  /** strings.TrimLeft(s, "-"). */
  function TrimLeftHyphens(s: string): (r: string)
    ensures |r| <= |s|
  {
    if s != [] && s[0] == '-' then TrimLeftHyphens(s[1..]) else s
  }

  /** strings.TrimRight(s, "-"). */
  function TrimRightHyphens(s: string): (r: string)
    ensures |r| <= |s|
  {
    if s != [] && s[|s| - 1] == '-' then TrimRightHyphens(s[..|s| - 1]) else s
  }

  /** strings.Trim(s, "-"), which trims the left end and then the right end: only hyphens go,
      none is left at either end, and a string without edge hyphens is returned unchanged. */
  function TrimHyphens(s: string): (r: string)
    ensures NoEdgeHyphen(r)
    ensures DropHyphens(r) == DropHyphens(s)
    ensures NoEdgeHyphen(s) ==> r == s
  {
    var b := TrimLeftHyphens(s);
    TrimLeftRemovesHyphenPrefix(s);
    TrimRightRemovesHyphenSuffix(b);
    DropHyphensOfTrimLeft(s);
    DropHyphensOfTrimRight(b);
    var r := TrimRightHyphens(b);
    assert r != [] ==> r[0] == b[0];
    r
  }

  /** GenerateSlug: lower-case, collapse the runs outside [a-z0-9] to "-", trim the hyphens. The
      result contains only [a-z0-9] and '-', does not start or end with '-', never contains "--",
      and without its hyphens it is exactly the [a-z0-9] characters of the lower-cased input, in
      their original order. */
  function GenerateSlug(s: string): (r: string)
    ensures WellFormedSlug(r)
    ensures DropHyphens(r) == AlnumOf(Lower(s))
  {
    var a := ReplaceRuns(Lower(s));
    TrimHyphensKeepsShape(a);
    DropHyphensOfReplaceRuns(Lower(s));
    TrimHyphens(a)
  }

  // --- What a slug looks like -------------------------------------------------

  predicate SlugAlphabet(t: string) {
    forall i :: 0 <= i < |t| ==> IsSlugChar(t[i]) || t[i] == '-'
  }

  predicate NoEdgeHyphen(t: string) {
    t == [] || (t[0] != '-' && t[|t| - 1] != '-')
  }

  predicate NoDoubleHyphen(t: string) {
    forall i :: 0 <= i < |t| - 1 ==> !(t[i] == '-' && t[i + 1] == '-')
  }

  /** Empty, or a match of ^[a-z0-9]+(-[a-z0-9]+)*$. */
  predicate WellFormedSlug(t: string) {
    SlugAlphabet(t) && NoEdgeHyphen(t) && NoDoubleHyphen(t)
  }

  /** The characters of s in [a-z0-9], in order. */
  function AlnumOf(s: string): (r: string)
    ensures |r| <= |s|
  {
    if s == [] then [] else if IsSlugChar(s[0]) then [s[0]] + AlnumOf(s[1..]) else AlnumOf(s[1..])
  }

  /** s with every '-' deleted. */
  function DropHyphens(s: string): (r: string)
    ensures |r| <= |s|
  {
    if s == [] then [] else if s[0] != '-' then [s[0]] + DropHyphens(s[1..]) else DropHyphens(s[1..])
  }

  // --- Properties of GenerateSlug ----------------------------------------------

  /** Lower-casing works character by character. */
  lemma {:induction false} LowerAt(s: string)
    ensures forall i :: 0 <= i < |s| ==> Lower(s)[i] == LowerChar(s[i])
  {
    if s != [] {
      LowerAt(s[1..]);
    }
  }

  /** TrimLeft removes a prefix made only of hyphens and stops at the first other character. */
  lemma {:induction false} TrimLeftRemovesHyphenPrefix(s: string)
    ensures var r := TrimLeftHyphens(s);
      && r == s[|s| - |r|..]
      && (r == [] || r[0] != '-')
      && forall i :: 0 <= i < |s| - |r| ==> s[i] == '-'
  {
    if s != [] && s[0] == '-' {
      TrimLeftRemovesHyphenPrefix(s[1..]);
    }
  }

  /** TrimRight removes a suffix made only of hyphens and stops at the last other character. */
  lemma {:induction false} TrimRightRemovesHyphenSuffix(s: string)
    ensures var r := TrimRightHyphens(s);
      && r == s[..|r|]
      && (r == [] || r[|r| - 1] != '-')
      && forall i :: |r| <= i < |s| ==> s[i] == '-'
  {
    if s != [] && s[|s| - 1] == '-' {
      TrimRightRemovesHyphenSuffix(s[..|s| - 1]);
    }
  }

  lemma TrimHyphensKeepsShape(a: string)
    requires SlugAlphabet(a) && NoDoubleHyphen(a)
    ensures WellFormedSlug(TrimHyphens(a))
  {
    var b := TrimLeftHyphens(a);
    var c := TrimRightHyphens(b);
    TrimLeftRemovesHyphenPrefix(a);
    TrimRightRemovesHyphenSuffix(b);
    SliceKeepsShape(a, |a| - |b|, |a|);
    SliceKeepsShape(b, 0, |c|);
    if c != [] {
      assert c[0] == b[0];
    }
  }

  /** A piece of a string over the slug alphabet without "--" is again such a string. */
  lemma SliceKeepsShape(a: string, lo: int, hi: int)
    requires SlugAlphabet(a) && NoDoubleHyphen(a) && 0 <= lo <= hi <= |a|
    ensures SlugAlphabet(a[lo..hi]) && NoDoubleHyphen(a[lo..hi])
  {
    var t := a[lo..hi];
    assert forall i :: 0 <= i < |t| ==> t[i] == a[lo + i];
  }

  lemma {:induction false} DropHyphensAppend(a: string, b: string)
    ensures DropHyphens(a + b) == DropHyphens(a) + DropHyphens(b)
  {
    if a == [] {
      assert a + b == b;
    } else {
      assert (a + b)[1..] == a[1..] + b;
      DropHyphensAppend(a[1..], b);
    }
  }

  lemma {:induction false} AlnumOfSkipRun(s: string)
    ensures AlnumOf(SkipRun(s)) == AlnumOf(s)
  {
    if s != [] && !IsSlugChar(s[0]) {
      AlnumOfSkipRun(s[1..]);
    }
  }

  lemma {:induction false} DropHyphensOfReplaceRuns(s: string)
    ensures DropHyphens(ReplaceRuns(s)) == AlnumOf(s)
    decreases |s|
  {
    if s == [] {
    } else if IsSlugChar(s[0]) {
      var r := ReplaceRuns(s[1..]);
      assert ([s[0]] + r)[1..] == r;
      DropHyphensOfReplaceRuns(s[1..]);
    } else {
      var t := SkipRun(s[1..]);
      var r := ReplaceRuns(t);
      assert ("-" + r)[1..] == r;
      DropHyphensOfReplaceRuns(t);
      AlnumOfSkipRun(s[1..]);
    }
  }

  lemma {:induction false} DropHyphensOfTrimLeft(a: string)
    ensures DropHyphens(TrimLeftHyphens(a)) == DropHyphens(a)
  {
    if a != [] && a[0] == '-' {
      DropHyphensOfTrimLeft(a[1..]);
    }
  }

  lemma {:induction false} DropHyphensOfTrimRight(a: string)
    ensures DropHyphens(TrimRightHyphens(a)) == DropHyphens(a)
  {
    if a != [] && a[|a| - 1] == '-' {
      var b := a[..|a| - 1];
      assert a == b + "-";
      DropHyphensAppend(b, "-");
      assert DropHyphens("-") == [];
      DropHyphensOfTrimRight(b);
    }
  }

  lemma LowerOfSlugAlphabet(t: string)
    requires SlugAlphabet(t)
    ensures Lower(t) == t
  {
    LowerAt(t);
    assert forall i :: 0 <= i < |t| ==> Lower(t)[i] == t[i];
  }

  lemma {:induction false} ReplaceRunsOfSlug(t: string)
    requires SlugAlphabet(t) && NoDoubleHyphen(t)
    ensures ReplaceRuns(t) == t
  {
    if t != [] {
      var u := t[1..];
      assert SlugAlphabet(u) && NoDoubleHyphen(u) by {
        assert forall i :: 0 <= i < |u| ==> u[i] == t[i + 1];
      }
      ReplaceRunsOfSlug(u);
      if !IsSlugChar(t[0]) {
        assert u == [] || IsSlugChar(u[0]) by {
          if u != [] { assert t[0] == '-' && u[0] == t[1]; }
        }
        assert SkipRun(u) == u;
        assert "-" + u == t;
      } else {
        assert [t[0]] + u == t;
      }
    }
  }

  /** Well-formed slugs are exactly the fixed points of GenerateSlug. */
  lemma FixedPointsAreSlugs(t: string)
    ensures GenerateSlug(t) == t <==> WellFormedSlug(t)
  {
    if WellFormedSlug(t) {
      LowerOfSlugAlphabet(t);
      ReplaceRunsOfSlug(t);
      assert TrimLeftHyphens(t) == t;
      assert TrimRightHyphens(t) == t;
    }
  }

  /** GenerateSlug is idempotent. */
  lemma GenerateSlugIdempotent(s: string)
    ensures GenerateSlug(GenerateSlug(s)) == GenerateSlug(s)
  {
    FixedPointsAreSlugs(GenerateSlug(s));
  }

  lemma {:induction false} AlnumOfNone(s: string)
    requires forall i :: 0 <= i < |s| ==> !IsSlugChar(s[i])
    ensures AlnumOf(s) == []
  {
    if s != [] {
      AlnumOfNone(s[1..]);
    }
  }

  lemma {:induction false} OnlyHyphensLeft(g: string)
    requires DropHyphens(g) == []
    ensures forall i :: 0 <= i < |g| ==> g[i] == '-'
  {
    if g != [] {
      OnlyHyphensLeft(g[1..]);
      assert forall i :: 1 <= i < |g| ==> g[i] == g[1..][i - 1];
    }
  }

  /** An input without any ASCII letter or digit yields the empty slug. */
  lemma NoAlnumGivesEmptySlug(s: string)
    requires forall i :: 0 <= i < |s| ==> !IsAsciiAlnum(s[i])
    ensures GenerateSlug(s) == ""
  {
    var l := Lower(s);
    LowerAt(s);
    assert forall i :: 0 <= i < |l| ==> !IsSlugChar(l[i]) by {
      forall i | 0 <= i < |l| ensures !IsSlugChar(l[i]) {
        assert l[i] == LowerChar(s[i]);
      }
    }
    AlnumOfNone(l);
    var g := GenerateSlug(s);
    OnlyHyphensLeft(g);
    assert NoEdgeHyphen(g);
  }

  lemma {:induction false} LowerAppend(a: string, b: string)
    ensures Lower(a + b) == Lower(a) + Lower(b)
  {
    if a == [] {
      assert a + b == b;
    } else {
      assert (a + b)[1..] == a[1..] + b;
      LowerAppend(a[1..], b);
    }
  }

  /** A word of [a-z0-9] characters passes through the replacement unchanged. */
  lemma {:induction false} ReplaceRunsWord(w: string, t: string)
    requires forall i :: 0 <= i < |w| ==> IsSlugChar(w[i])
    ensures ReplaceRuns(w + t) == w + ReplaceRuns(t)
  {
    if w == [] {
      assert w + t == t;
    } else {
      assert (w + t)[0] == w[0] && IsSlugChar(w[0]);
      assert (w + t)[1..] == w[1..] + t;
      ReplaceRunsWord(w[1..], t);
      assert [w[0]] + (w[1..] + ReplaceRuns(t)) == w + ReplaceRuns(t);
    }
  }

  lemma {:induction false} SkipRunSeparator(x: string, t: string)
    requires forall i :: 0 <= i < |x| ==> !IsSlugChar(x[i])
    requires t == [] || IsSlugChar(t[0])
    ensures SkipRun(x + t) == t
  {
    if x == [] {
      assert x + t == t;
    } else {
      assert (x + t)[1..] == x[1..] + t;
      SkipRunSeparator(x[1..], t);
    }
  }

  /** A non-empty run outside [a-z0-9] followed by a word (or by nothing) becomes one hyphen. */
  lemma ReplaceRunsSeparator(x: string, t: string)
    requires x != [] && forall i :: 0 <= i < |x| ==> !IsSlugChar(x[i])
    requires t == [] || IsSlugChar(t[0])
    ensures ReplaceRuns(x + t) == "-" + ReplaceRuns(t)
  {
    assert (x + t)[0] == x[0];
    assert (x + t)[1..] == x[1..] + t;
    SkipRunSeparator(x[1..], t);
  }

  lemma HelloWorldLowered()
    ensures Lower("Hello" + ", " + "World" + "!") == "hello" + (", " + ("world" + "!"))
  {
    LowerAppend("Hello" + ", " + "World", "!");
    LowerAppend("Hello" + ", ", "World");
    LowerAppend("Hello", ", ");
    assert Lower("Hello") == "hello" by {}
    assert Lower("World") == "world" by {}
    assert Lower(", ") == ", " && Lower("!") == "!" by {}
  }

  lemma HelloWorldReplaced()
    ensures ReplaceRuns("hello" + (", " + ("world" + "!"))) == "hello" + "-" + "world" + "-"
  {
    ReplaceRunsWord("hello", ", " + ("world" + "!"));
    ReplaceRunsSeparator(", ", "world" + "!");
    ReplaceRunsWord("world", "!");
    ReplaceRunsSeparator("!", "");
  }

  /** The standard example: "Hello, World!" gives "hello-world". */
  lemma HelloWorldSlug()
    ensures GenerateSlug("Hello" + ", " + "World" + "!") == "hello-world"
  {
    HelloWorldLowered();
    HelloWorldReplaced();
    HelloWorldTrimmed();
  }

  lemma HelloWorldTrimmed()
    ensures TrimHyphens("hello" + "-" + "world" + "-") == "hello-world"
  {
    assert "hello" + "-" + "world" + "-" == "hello-world-";
    assert TrimLeftHyphens("hello-world-") == "hello-world-";
    assert TrimRightHyphens("hello-world-") == TrimRightHyphens("hello-world");
  }
}
