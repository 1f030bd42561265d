/**
 * The route table set up by ApiConfig::startRouters in
 * api/core/apiconfig.php: each resource reachable without authentication has
 * its path turned into a regular expression. Trailing slashes are dropped,
 * every `:name` parameter becomes the group `(\w+)`, and the result is
 * anchored and wrapped in `~` delimiters.
 */
module ApiConfig {
  /** An entry of the route table: a path such as "/users/:id/drink" and the methods it allows. */
  datatype Resource = Resource(path: string, methods: seq<string>)

  /** rtrim($path, '/'): every trailing slash removed. */
  function RTrimSlash(s: string): (r: string)
    ensures |r| <= |s| && r == s[..|r|]
    ensures |r| == 0 || r[|r| - 1] != '/'
    ensures forall i :: |r| <= i < |s| ==> s[i] == '/'
  {
    if |s| > 0 && s[|s| - 1] == '/' then RTrimSlash(s[..|s| - 1]) else s
  }

  /** PCRE's `\w` without the `u` flag: an ASCII letter, digit or underscore. */
  predicate IsWordChar(c: char) {
    ('a' <= c <= 'z') || ('A' <= c <= 'Z') || ('0' <= c <= '9') || c == '_'
  }

  /** The number of word characters from index i on. */
  function WordRun(s: string, i: nat): (n: nat)
    requires i <= |s|
    ensures i + n <= |s|
    ensures forall j :: i <= j < i + n ==> IsWordChar(s[j])
    ensures i + n == |s| || !IsWordChar(s[i + n])
    decreases |s| - i
  {
    if i < |s| && IsWordChar(s[i]) then 1 + WordRun(s, i + 1) else 0
  }

  /** The text every parameter is replaced with. */
  const Group := "(\\w+)"

  /**
   * preg_replace('/:(\w+)/', '(\w+)', $path): scanning from the left, a colon
   * followed by at least one word character, together with all the word
   * characters that follow it, becomes the group; every other character is kept.
   */
  function ReplaceParameters(s: string): string
    decreases |s|
  {
    if |s| == 0 then ""
    else if s[0] == ':' && WordRun(s, 1) > 0 then Group + ReplaceParameters(s[1 + WordRun(s, 1)..])
    else [s[0]] + ReplaceParameters(s[1..])
  }

  /** The regular expression a path becomes. */
  function Pattern(path: string): string {
    "~^" + ReplaceParameters(RTrimSlash(path)) + "$~"
  }

  /** startRouters: the table with every path rewritten. */
  function StartRouters(resources: seq<Resource>): (table: seq<Resource>)
  {
    seq(|resources|, i requires 0 <= i < |resources| => resources[i].(path := Pattern(resources[i].path)))
  }

  /** A parameter left in a text: a colon right before a word character. */
  predicate HasParameter(s: string) {
    exists i :: 0 <= i < |s| - 1 && s[i] == ':' && IsWordChar(s[i + 1])
  }

  /* ---------- Properties ---------- */

  /** Trimming twice trims nothing more. */
  lemma RTrimSlashIdempotent(s: string)
    ensures RTrimSlash(RTrimSlash(s)) == RTrimSlash(s)
  {
  }

  /** A rewritten text starts with the group, or with the character it started with. */
  lemma ReplaceParametersHead(s: string)
    requires |s| > 0
    ensures var r := ReplaceParameters(s);
      |r| > 0 && (r[0] == s[0] || r[0] == '(')
  {
  }

  /** No parameter survives the rewrite. */
  lemma {:induction false} NoParameterLeft(s: string)
    ensures !HasParameter(ReplaceParameters(s))
    decreases |s|
  {
    if |s| > 0 {
      var r := ReplaceParameters(s);
      if s[0] == ':' && WordRun(s, 1) > 0 {
        var rest := s[1 + WordRun(s, 1)..];
        NoParameterLeft(rest);
        var tail := ReplaceParameters(rest);
        assert r == Group + tail;
        forall i | 0 <= i < |r| - 1 && r[i] == ':'
          ensures !IsWordChar(r[i + 1])
        {
          assert i >= |Group|;
          assert r[i] == tail[i - |Group|] && r[i + 1] == tail[i - |Group| + 1];
        }
      } else {
        NoParameterLeft(s[1..]);
        var tail := ReplaceParameters(s[1..]);
        assert r == [s[0]] + tail;
        forall i | 0 <= i < |r| - 1 && r[i] == ':'
          ensures !IsWordChar(r[i + 1])
        {
          if i == 0 {
            ReplaceParametersHead(s[1..]);
            assert r[1] == tail[0];
          } else {
            assert r[i] == tail[i - 1] && r[i + 1] == tail[i];
          }
        }
      }
    }
  }

  /** A text without a colon is kept as it is. */
  lemma {:induction false} NoColonKept(s: string)
    requires forall i :: 0 <= i < |s| ==> s[i] != ':'
    ensures ReplaceParameters(s) == s
    decreases |s|
  {
    if |s| > 0 {
      NoColonKept(s[1..]);
      assert [s[0]] + s[1..] == s;
    }
  }

  /**
   * The rewrite works piece by piece: a colon-free prefix is kept, and a
   * parameter followed by a non-word character becomes one group.
   */
  lemma {:induction false} ParameterReplaced(a: string, name: string, b: string)
    requires forall i :: 0 <= i < |a| ==> a[i] != ':'
    requires |name| > 0 && forall i :: 0 <= i < |name| ==> IsWordChar(name[i])
    requires |b| == 0 || !IsWordChar(b[0])
    ensures ReplaceParameters(a + ":" + name + b) == a + Group + ReplaceParameters(b)
    decreases |a|
  {
    var s := a + ":" + name + b;
    if |a| > 0 {
      assert s[0] == a[0] && s[1..] == a[1..] + ":" + name + b;
      ParameterReplaced(a[1..], name, b);
      calc {
        ReplaceParameters(s);
        [a[0]] + ReplaceParameters(s[1..]);
        [a[0]] + (a[1..] + Group + ReplaceParameters(b));
        { assert [a[0]] + a[1..] == a; }
        a + Group + ReplaceParameters(b);
      }
    } else {
      assert s == ":" + name + b;
      WordRunOfName(s, name, b);
      assert s[1 + |name|..] == b;
    }
  }

  lemma WordRunOfName(s: string, name: string, b: string)
    requires s == ":" + name + b
    requires forall i :: 0 <= i < |name| ==> IsWordChar(name[i])
    requires |b| == 0 || !IsWordChar(b[0])
    ensures WordRun(s, 1) == |name|
  {
    assert forall j :: 0 <= j < |name| ==> s[1 + j] == name[j];
    assert 1 + |name| < |s| ==> s[1 + |name|] == b[0];
    WordRunExact(s, 1, |name|);
  }

  /** A run of k word characters ended by a non-word character or the end of the text. */
  lemma {:induction false} WordRunExact(s: string, i: nat, k: nat)
    requires i + k <= |s|
    requires forall j :: i <= j < i + k ==> IsWordChar(s[j])
    requires i + k == |s| || !IsWordChar(s[i + k])
    ensures WordRun(s, i) == k
    decreases k
  {
    if k > 0 {
      WordRunExact(s, i + 1, k - 1);
    }
  }

  /** A pattern is anchored, wrapped in `~`, has no trailing slash inside and no parameter left. */
  lemma PatternShape(path: string)
    ensures var p := Pattern(path);
      |p| >= 4 && p[..2] == "~^" && p[|p| - 2..] == "$~"
    ensures !HasParameter(ReplaceParameters(RTrimSlash(path)))
  {
    NoParameterLeft(RTrimSlash(path));
  }

  /** startRouters keeps the table's length, order and methods and rewrites every path. */
  lemma StartRoutersSpec(resources: seq<Resource>)
    ensures |StartRouters(resources)| == |resources|
    ensures forall i :: 0 <= i < |resources| ==>
      StartRouters(resources)[i].methods == resources[i].methods
      && StartRouters(resources)[i].path == Pattern(resources[i].path)
  {
  }

  /** A path with no colon becomes itself without trailing slashes, anchored: "/login/" gives "~^/login$~". */
  lemma PlainPath(path: string)
    requires forall i :: 0 <= i < |path| ==> path[i] != ':'
    ensures Pattern(path) == "~^" + RTrimSlash(path) + "$~"
  {
    NoColonKept(RTrimSlash(path));
  }

  /** One trailing slash goes: the first route of the shipped table, "/login/", gives "~^/login$~". */
  lemma SlashEndedPath(path: string)
    requires forall i :: 0 <= i < |path| ==> path[i] != ':'
    requires |path| > 0 && path[|path| - 1] != '/'
    ensures Pattern(path + "/") == "~^" + path + "$~"
  {
    var s := path + "/";
    assert s[..|s| - 1] == path;
    assert RTrimSlash(path) == path;
    NoColonKept(path);
  }

  /** The first route of the shipped table. */
  lemma LoginRoute()
    ensures Pattern("/login/") == "~^/login$~"
  {
    SlashEndedPath("/login");
    assert "/login" + "/" == "/login/";
  }

  /**
   * A path with one parameter between two colon-free parts, the last of which
   * starts with a non-word character and does not end in a slash.
   */
  lemma OneParameterPath(a: string, name: string, b: string)
    requires forall i :: 0 <= i < |a| ==> a[i] != ':'
    requires |name| > 0 && forall i :: 0 <= i < |name| ==> IsWordChar(name[i])
    requires |b| > 0 && !IsWordChar(b[0]) && b[|b| - 1] != '/'
    requires forall i :: 0 <= i < |b| ==> b[i] != ':'
    ensures Pattern(a + ":" + name + b) == "~^" + a + Group + b + "$~"
  {
    var s := a + ":" + name + b;
    assert s[|s| - 1] == b[|b| - 1];
    assert RTrimSlash(s) == s;
    ParameterReplaced(a, name, b);
    NoColonKept(b);
  }
}
