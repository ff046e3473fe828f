/**
 * Controller: the class and the action method that handle a route, named by
 * convention from the route path and the HTTP verb.  Whether a class or a
 * method exists is reflection and arrives as a function.
 */
module Controllers {
  import opened Php
  import opened Errors

  /** Index of the first occurrence of c in s. */
  function IndexOf(s: string, c: char): (r: Option<nat>)
    ensures r.Some? ==> r.value < |s| && s[r.value] == c && c !in s[..r.value]
    ensures r.None? ==> c !in s
  {
    if s == [] then None
    else if s[0] == c then Some(0)
    else match IndexOf(s[1..], c)
      case None => None
      case Some(k) => assert s[1..][..k] == s[1..k + 1]; Some(k + 1)
  }

  /** The first c in p + [c] + rest is the one after p, when p has none. */
  lemma IndexOfAfter(p: string, c: char, rest: string)
    requires c !in p
    ensures IndexOf(p + [c] + rest, c) == Some(|p|)
  {
    var s := p + [c] + rest;
    assert s[|p|] == c;
  }

  /**
   * preg_replace('/\{[^}]+\}/', '', s): scanning left to right, a '{' that
   * is followed, before the next '}', by at least one character starts a
   * placeholder running to that '}', which is dropped.
   */
  function StripPlaceholders(s: string): (r: string)
    ensures |r| <= |s|
    ensures '{' !in s ==> r == s
    decreases |s|
  {
    if s == [] then ""
    else if s[0] == '{' && IndexOf(s[1..], '}').Some? && IndexOf(s[1..], '}').value > 0 then
      StripPlaceholders(s[IndexOf(s[1..], '}').value + 2..])
    else
      assert '{' !in s ==> '{' !in s[1..] && [s[0]] + s[1..] == s;
      [s[0]] + StripPlaceholders(s[1..])
  }

  /** A placeholder "{p}" at the front is dropped, and the rest is scanned on. */
  lemma StripLeadingPlaceholder(p: string, b: string)
    requires p != [] && '}' !in p
    ensures StripPlaceholders(['{'] + p + ['}'] + b) == StripPlaceholders(b)
  {
    var s := ['{'] + p + ['}'] + b;
    assert s[0] == '{';
    assert s[1..] == p + ['}'] + b;
    IndexOfAfter(p, '}', b);
    assert s[|p| + 2..] == b;
  }

  /** A character other than '{' is kept, and the scan goes on after it. */
  lemma StripPlainChar(c: char, t: string)
    requires c != '{'
    ensures StripPlaceholders([c] + t) == [c] + StripPlaceholders(t)
  {
    assert ([c] + t)[1..] == t;
  }

  lemma ConsAppend(a: string, c: string)
    requires a != []
    ensures [a[0]] + (a[1..] + c) == a + c
  {
    assert [a[0]] + a[1..] == a;
  }

  /** A placeholder "{p}" after brace-free text a is dropped, and the rest is scanned on. */
  lemma {:induction false} StripOnePlaceholder(a: string, p: string, b: string)
    requires Lacks(a, '{') && p != [] && '}' !in p
    ensures StripPlaceholders(a + ['{'] + p + ['}'] + b) == a + StripPlaceholders(b)
    decreases |a|
  {
    if a == [] {
      assert a + ['{'] + p + ['}'] + b == ['{'] + p + ['}'] + b;
      StripLeadingPlaceholder(p, b);
    } else {
      var s := a + ['{'] + p + ['}'] + b;
      var t := a[1..] + ['{'] + p + ['}'] + b;
      assert s == [a[0]] + t;
      StripPlainChar(a[0], t);
      assert Lacks(a[1..], '{') by {
        assert forall i :: 0 <= i < |a| - 1 ==> a[1..][i] == a[i + 1];
      }
      StripOnePlaceholder(a[1..], p, b);
      ConsAppend(a, StripPlaceholders(b));
    }
  }

  /** str_replace('//', '/', s): non-overlapping, left to right. */
  function CollapseDoubleSlash(s: string): (r: string)
    ensures |r| <= |s|
  {
    if |s| >= 2 && s[0] == '/' && s[1] == '/' then "/" + CollapseDoubleSlash(s[2..])
    else if s == [] then ""
    else [s[0]] + CollapseDoubleSlash(s[1..])
  }

  /** A word without slashes passes through str_replace('//', '/') untouched. */
  lemma {:induction false} CollapseWord(word: string, rest: string)
    requires Lacks(word, '/')
    ensures CollapseDoubleSlash(word + rest) == word + CollapseDoubleSlash(rest)
    decreases |word|
  {
    if word != [] {
      var c := CollapseDoubleSlash(rest);
      assert (word + rest)[0] == word[0];
      assert (word + rest)[1..] == word[1..] + rest;
      assert CollapseDoubleSlash(word + rest) == [word[0]] + CollapseDoubleSlash(word[1..] + rest);
      CollapseWord(word[1..], rest);
      assert [word[0]] + (word[1..] + c) == word + c;
    } else {
      assert word + rest == rest;
    }
  }

  /** The characters trim() strips by default. */
  predicate IsTrimSpace(c: char)
  {
    c == ' ' || c == '\t' || c == '\n' || c == '\r' || c == '\0' || c as int == 11
  }

  predicate IsSlash(c: char)
  {
    c == '/'
  }

  predicate IsWordChar(c: char)
  {
    IsAsciiLetter(c) || IsDigit(c)
  }

  predicate IsNameChar(c: char)
  {
    IsWordChar(c) || c == '/'
  }

  /** preg_replace('/[^a-zA-Z\d\/]/', '', s). */
  function KeepNameChars(s: string): (r: string)
    ensures forall k :: 0 <= k < |r| ==> IsNameChar(r[k])
    ensures (forall k :: 0 <= k < |s| ==> IsNameChar(s[k])) ==> r == s
  {
    if s == [] then "" else (if IsNameChar(s[0]) then [s[0]] else "") + KeepNameChars(s[1..])
  }

  predicate IsClassNameChar(c: char)
  {
    IsWordChar(c) || c == '\\'
  }

  function UcFirstAll(xs: seq<string>): (r: seq<string>)
    ensures |r| == |xs|
    ensures forall k :: 0 <= k < |xs| ==> r[k] == UcFirst(xs[k])
  {
    if xs == [] then [] else [UcFirst(xs[0])] + UcFirstAll(xs[1..])
  }

  /** ucfirst keeps a word a word. */
  lemma UcFirstWord(s: string)
    requires forall i :: 0 <= i < |s| ==> IsWordChar(s[i])
    ensures forall i :: 0 <= i < |UcFirst(s)| ==> IsWordChar(UcFirst(s)[i])
  {
    if s != [] {
      assert UcFirst(s)[0] == UpperChar(s[0]);
      assert forall i :: 1 <= i < |s| ==> UcFirst(s)[i] == s[i];
    }
  }

  /** The route path with its placeholders, doubled and surrounding slashes and foreign characters removed. */
  function Cleaned(routePath: string): (r: string)
    ensures forall k :: 0 <= k < |r| ==> IsNameChar(r[k])
  {
    var noParams := StripPlaceholders(routePath);
    var single := Trim(CollapseDoubleSlash(noParams), IsTrimSpace);
    KeepNameChars(Trim(single, IsSlash))
  }

  /**
   * The class name of a cleaned path: with several '/'-separated segments,
   * each capitalised and joined by '\'; otherwise the path capitalised.
   * (ucwords capitalises after whitespace only, and none is left.)
   */
  function ClassNameOf(cleaned: string): (r: string)
    requires forall k :: 0 <= k < |cleaned| ==> IsNameChar(cleaned[k])
    ensures forall i :: 0 <= i < |r| ==> IsClassNameChar(r[i])
  {
    var chunks := Split(cleaned, '/');
    if |chunks| > 1 then
      var parts := UcFirstAll(chunks);
      forall k | 0 <= k < |chunks| ensures forall i :: 0 <= i < |parts[k]| ==> IsClassNameChar(parts[k][i]) {
        assert forall i :: 0 <= i < |chunks[k]| ==> IsWordChar(chunks[k][i]) by {
          forall i | 0 <= i < |chunks[k]| ensures IsWordChar(chunks[k][i]) {
            var j :| 0 <= j < |cleaned| && cleaned[j] == chunks[k][i];
            assert IsNameChar(cleaned[j]);
          }
        }
        UcFirstWord(chunks[k]);
      }
      ImplodeChars("\\", parts, IsClassNameChar);
      Implode("\\", parts)
    else
      SinglePiece(cleaned, '/');
      assert chunks[0] == cleaned;
      forall i | 0 <= i < |cleaned| ensures IsWordChar(cleaned[i]) {
        assert chunks[0][i] != '/' && IsNameChar(cleaned[i]);
      }
      UcFirstWord(cleaned);
      UcFirst(cleaned)
  }

  /** getClassName: only letters, digits and '\' remain, so no placeholder and no '/'. */
  function ClassName(routePath: string): (r: string)
    ensures forall i :: 0 <= i < |r| ==> IsClassNameChar(r[i])
  {
    ClassNameOf(Cleaned(routePath))
  }

  /** Segments of letters and digits, at least one character each. */
  predicate Words(segments: seq<string>)
  {
    && (forall k :: 0 <= k < |segments| ==> segments[k] != [])
    && (forall k, i :: 0 <= k < |segments| && 0 <= i < |segments[k]| ==> IsWordChar(segments[k][i]))
  }

  /** Non-empty segments without '/'. */
  predicate SlashFree(segments: seq<string>)
  {
    forall k :: 0 <= k < |segments| ==> segments[k] != [] && Lacks(segments[k], '/')
  }

  lemma WordsAreSlashFree(segments: seq<string>)
    requires Words(segments)
    ensures SlashFree(segments)
  {
  }

  /** Several word segments joined by '/' name the class of the capitalised segments joined by '\'. */
  lemma JoinedClassName(segments: seq<string>)
    requires |segments| >= 2 && Words(segments)
    ensures forall k :: 0 <= k < |Implode("/", segments)| ==> IsNameChar(Implode("/", segments)[k])
    ensures ClassNameOf(Implode("/", segments)) == Implode("\\", UcFirstAll(segments))
  {
    ImplodeChars("/", segments, IsNameChar);
    WordsAreSlashFree(segments);
    forall k | 0 <= k < |segments| ensures '/' !in segments[k] {
      assert Lacks(segments[k], '/');
    }
    SplitImplode(segments, '/');
  }

  /** Once placeholders and doubled slashes are gone, trimming leaves the joined segments. */
  lemma TrimmedPlainPath(routePath: string, segments: seq<string>)
    requires |segments| >= 1 && Words(segments)
    requires CollapseDoubleSlash(StripPlaceholders(routePath)) == "/" + Implode("/", segments)
    ensures Cleaned(routePath) == Implode("/", segments)
  {
    JoinedWords(segments);
    TrimSlashLed(Implode("/", segments));
  }

  /** "/" + joined, joined starting and ending with a word character, trims to joined. */
  lemma TrimSlashLed(joined: string)
    requires joined != [] && IsWordChar(joined[0]) && IsWordChar(joined[|joined| - 1])
    ensures Trim(Trim("/" + joined, IsTrimSpace), IsSlash) == joined
  {
    var path := "/" + joined;
    assert path[|path| - 1] == joined[|joined| - 1];
    assert Trim(path, IsTrimSpace) == path;
    assert TrimLeft(path, IsSlash) == TrimLeft(joined, IsSlash) by {
      assert path[1..] == joined;
    }
    assert Trim(path, IsSlash) == joined;
  }

  /** Joining slash-free segments with '/' leaves no "//". */
  lemma {:induction false} NoDoubleSlash(segments: seq<string>)
    requires |segments| >= 1 && SlashFree(segments)
    ensures CollapseDoubleSlash(Implode("/", segments)) == Implode("/", segments)
    decreases |segments|
  {
    if |segments| == 1 {
      CollapseWord(segments[0], "");
      assert segments[0] + "" == segments[0];
    } else {
      var rest := Implode("/", segments[1..]);
      NoDoubleSlash(segments[1..]);
      assert rest[0] == segments[1][0] && segments[1][0] != '/';
      assert Implode("/", segments) == segments[0] + ("/" + rest);
      CollapseWord(segments[0], "/" + rest);
      assert ("/" + rest)[0] == '/' && ("/" + rest)[1] == rest[0] && ("/" + rest)[1..] == rest;
      assert CollapseDoubleSlash("/" + rest) == "/" + rest;
    }
  }

  /** A plain route path of word segments: the class name is made of its capitalised segments, in order. */
  lemma PlainPathClassName(segments: seq<string>)
    requires |segments| >= 2 && Words(segments)
    ensures ClassName("/" + Implode("/", segments)) == Implode("\\", UcFirstAll(segments))
  {
    PlainPathUntouched(segments);
    TrimmedPlainPath("/" + Implode("/", segments), segments);
    JoinedClassName(segments);
  }

  /** A plain route path has no placeholder and no doubled slash to remove. */
  lemma PlainPathUntouched(segments: seq<string>)
    requires |segments| >= 1 && Words(segments)
    ensures var path := "/" + Implode("/", segments);
            CollapseDoubleSlash(StripPlaceholders(path)) == path
  {
    var joined := Implode("/", segments);
    JoinedWords(segments);
    SlashLedLacks(joined);
    CollapseSlashLed(joined);
  }

  /** A join of word segments starts and ends with a word character, and has no '{' and no "//". */
  lemma JoinedWords(segments: seq<string>)
    requires |segments| >= 1 && Words(segments)
    ensures var joined := Implode("/", segments);
            && joined != [] && joined[0] == segments[0][0] && IsWordChar(joined[0])
            && IsWordChar(joined[|joined| - 1])
            && Lacks(joined, '{')
            && (forall i :: 0 <= i < |joined| ==> IsNameChar(joined[i]))
            && CollapseDoubleSlash(joined) == joined
  {
    var joined := Implode("/", segments);
    ImplodeChars("/", segments, IsNameChar);
    ImplodeLast("/", segments);
    assert joined[0] == segments[0][0];
    WordsAreSlashFree(segments);
    NoDoubleSlash(segments);
  }

  lemma CollapseSlashLed(rest: string)
    requires rest != [] && rest[0] != '/' && CollapseDoubleSlash(rest) == rest
    ensures CollapseDoubleSlash("/" + rest) == "/" + rest
  {
    assert ("/" + rest)[1..] == rest;
  }

  /** Dropping a placeholder between two brace-free segments leaves a doubled slash. */
  lemma PlaceholderStripped(a: string, p: string, b: string)
    requires Lacks(a, '{') && Lacks(b, '{') && p != [] && '}' !in p
    ensures StripPlaceholders("/" + a + "/" + ['{'] + p + ['}'] + "/" + b) == "/" + a + "//" + b
  {
    SlashWrappedLacks(a);
    SlashLedLacks(b);
    PlaceholderRegrouped(a, p, b);
    StripOnePlaceholder("/" + a + "/", p, "/" + b);
    assert ("/" + a + "/") + ("/" + b) == "/" + a + "//" + b;
  }

  lemma SlashWrappedLacks(a: string)
    requires Lacks(a, '{')
    ensures Lacks("/" + a + "/", '{')
  {
    var head := "/" + a + "/";
    forall i | 0 <= i < |head| ensures head[i] != '{' {
      if 0 < i < |head| - 1 {
        assert head[i] == a[i - 1];
      }
    }
  }

  lemma SlashLedLacks(b: string)
    requires Lacks(b, '{')
    ensures '{' !in "/" + b
  {
    assert forall i :: 0 < i < |"/" + b| ==> ("/" + b)[i] == b[i - 1];
  }

  lemma PlaceholderRegrouped(a: string, p: string, b: string)
    ensures "/" + a + "/" + ['{'] + p + ['}'] + "/" + b == ("/" + a + "/") + ['{'] + p + ['}'] + ("/" + b)
  {
  }

  /** The doubled slash between two non-empty slash-free segments collapses. */
  lemma DoubledSlashCollapsed(a: string, b: string)
    requires a != [] && Lacks(a, '/') && Lacks(b, '/')
    ensures CollapseDoubleSlash("/" + a + "//" + b) == "/" + a + "/" + b
  {
    var t := a + ("//" + b);
    Regrouped(a, b);
    CollapseWord(a, "//" + b);
    CollapsePair(b);
    CollapseLeadingSingle(t);
  }

  lemma Regrouped(a: string, b: string)
    ensures "/" + a + "//" + b == "/" + (a + ("//" + b))
    ensures "/" + a + "/" + b == "/" + (a + ("/" + b))
  {
  }

  /** A single leading slash stays when a non-slash follows it. */
  lemma CollapseLeadingSingle(t: string)
    requires t != [] && t[0] != '/'
    ensures CollapseDoubleSlash("/" + t) == "/" + CollapseDoubleSlash(t)
  {
    assert ("/" + t)[1..] == t;
  }

  /** "//" followed by a slash-free word collapses to one slash. */
  lemma CollapsePair(b: string)
    requires Lacks(b, '/')
    ensures CollapseDoubleSlash("//" + b) == "/" + b
  {
    assert ("//" + b)[2..] == b;
    CollapseWord(b, "");
    assert b + "" == b;
  }

  /** The placeholder between two segments is dropped, and so is the doubled slash it leaves. */
  lemma PlaceholderDropped(a: string, p: string, b: string)
    requires Words([a, b]) && p != [] && '}' !in p
    ensures CollapseDoubleSlash(StripPlaceholders("/" + a + "/" + ['{'] + p + ['}'] + "/" + b)) == "/" + Implode("/", [a, b])
  {
    WordPair(a, b);
    PlaceholderStripped(a, p, b);
    DoubledSlashCollapsed(a, b);
  }

  lemma WordPair(a: string, b: string)
    requires Words([a, b])
    ensures a != [] && Lacks(a, '/') && Lacks(b, '/') && Lacks(a, '{') && Lacks(b, '{')
    ensures Implode("/", [a, b]) == a + "/" + b
  {
    assert [a, b][0] == a && [a, b][1] == b;
    assert forall i :: 0 <= i < |a| ==> IsWordChar(a[i]);
    assert forall i :: 0 <= i < |b| ==> IsWordChar(b[i]);
    assert [a, b][1..] == [b];
  }

  /**
   * A route with a placeholder between two segments names the class of the
   * two capitalised segments: the documented /item/{itemId}/comment gives
   * Item\Comment.
   */
  lemma PlaceholderPathClassName(a: string, p: string, b: string)
    requires Words([a, b]) && p != [] && '}' !in p
    ensures ClassName("/" + a + "/" + ['{'] + p + ['}'] + "/" + b) == UcFirst(a) + "\\" + UcFirst(b)
  {
    PlaceholderDropped(a, p, b);
    TrimmedPlainPath("/" + a + "/" + ['{'] + p + ['}'] + "/" + b, [a, b]);
    JoinedClassName([a, b]);
    assert UcFirstAll([a, b]) == [UcFirst(a), UcFirst(b)];
  }

  /** class_exists and method_exists. */
  datatype Reflection = Reflection(classExists: string -> bool, methodExists: (string, string) -> bool)

  datatype Controller = Controller(namespace: string, routePath: string, verb: string)
  {
    /** getFullyQualifiedName: namespace\ClassName, which must name an existing class. */
    function FullyQualifiedName(reflection: Reflection): (r: Result<string, Failure>)
      ensures var fqn := namespace + "\\" + ClassName(routePath);
              && (r.Ok? <==> reflection.classExists(fqn))
              && (r.Ok? ==> r.value == fqn)
              && (r.Err? ==> r.error == Runtime(fqn + " not found"))
    {
      var fqn := namespace + "\\" + ClassName(routePath);
      if reflection.classExists(fqn) then Ok(fqn) else Err(Runtime(fqn + " not found"))
    }

    /** getActionMethodName: lower-cased verb + "Action", which the class must declare. */
    function ActionMethodName(reflection: Reflection): (r: Result<string, Failure>)
      ensures var fqn := namespace + "\\" + ClassName(routePath);
              var action := Lower(verb) + "Action";
              && (r.Ok? <==> reflection.classExists(fqn) && reflection.methodExists(fqn, action))
              && (r.Ok? ==> r.value == action)
              && (r.Err? && reflection.classExists(fqn) ==> r.error == Runtime(fqn + "::" + action + " method not found"))
              && (!reflection.classExists(fqn) ==> r == Err(Runtime(fqn + " not found")))
    {
      var action := Lower(verb) + "Action";
      match FullyQualifiedName(reflection)
      case Err(e) => Err(e)
      case Ok(fqn) =>
        if reflection.methodExists(fqn, action) then Ok(action)
        else Err(Runtime(fqn + "::" + action + " method not found"))
    }
  }
}
