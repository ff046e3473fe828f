/**
 * getFieldPath, shared by the schema-error converters: a JSON pointer such
 * as "/a/b" becomes the dotted "a.b", the field name is appended, and no
 * dot is left at the end.
 */
module FieldPaths {
  import opened Php

  /** str_replace for a single character. */
  function ReplaceChar(s: string, from: char, to: char): (r: string)
    ensures |r| == |s|
    ensures forall i :: 0 <= i < |s| ==> r[i] == if s[i] == from then to else s[i]
  {
    if s == [] then [] else [if s[0] == from then to else s[0]] + ReplaceChar(s[1..], from, to)
  }

  lemma ReplaceCharAppend(a: string, b: string, from: char, to: char)
    ensures ReplaceChar(a + b, from, to) == ReplaceChar(a, from, to) + ReplaceChar(b, from, to)
  {
    var l := ReplaceChar(a + b, from, to);
    var r := ReplaceChar(a, from, to) + ReplaceChar(b, from, to);
    assert forall i :: 0 <= i < |l| ==> l[i] == r[i] by {
      forall i | 0 <= i < |l| ensures l[i] == r[i] {
        if i < |a| {
          assert (a + b)[i] == a[i];
        } else {
          assert (a + b)[i] == b[i - |a|];
        }
      }
    }
  }

  /** substr($s, 1). */
  function DropFirst(s: string): (r: string)
    ensures s != [] ==> r == s[1..]
  {
    if s == [] then [] else s[1..]
  }

  predicate IsDot(c: char)
  {
    c == '.'
  }

  /** getFieldPath($validationError, $field). */
  function FieldPath(dataPath: string, field: string): (r: string)
    ensures r == [] || r[|r| - 1] != '.'
    ensures dataPath == "/" ==> r == TrimRight(field, IsDot)
    ensures dataPath == "/" && (field == [] || field[|field| - 1] != '.') ==> r == field
  {
    // The root pointer contributes the empty prefix, so the field alone is trimmed.
    if dataPath != "/" then TrimRight(ReplaceChar(DropFirst(dataPath), '/', '.') + "." + field, IsDot)
    else TrimRight(field, IsDot)
  }

  /** Segments of a JSON pointer that can be read back from a dotted path: non-empty, no '/' and no '.'. */
  predicate PlainSegments(segments: seq<string>)
  {
    forall k :: 0 <= k < |segments| ==> segments[k] != [] && Lacks(segments[k], '/') && Lacks(segments[k], '.')
  }

  /** Replacing '/' by '.' in a '/'-joined pointer gives the '.'-joined segments. */
  lemma {:induction false} ReplaceImplode(segments: seq<string>)
    requires |segments| >= 1 && PlainSegments(segments)
    ensures ReplaceChar(Implode("/", segments), '/', '.') == Implode(".", segments)
    decreases |segments|
  {
    assert ReplaceChar(segments[0], '/', '.') == segments[0];
    if |segments| > 1 {
      ReplaceImplode(segments[1..]);
      ReplaceCharAppend(segments[0] + "/", Implode("/", segments[1..]), '/', '.');
      ReplaceCharAppend(segments[0], "/", '/', '.');
    }
  }

  /** Joining one more piece. */
  lemma {:induction false} ImplodeSnoc(glue: string, pieces: seq<string>, x: string)
    requires |pieces| >= 1
    ensures Implode(glue, pieces + [x]) == Implode(glue, pieces) + glue + x
    decreases |pieces|
  {
    if |pieces| > 1 {
      assert (pieces + [x])[1..] == pieces[1..] + [x];
      ImplodeSnoc(glue, pieces[1..], x);
    }
  }

  /** The pointer part of the path: "/s1/.../sn" reads as "s1. ... .sn". */
  lemma PointerDotted(segments: seq<string>)
    requires |segments| >= 1 && PlainSegments(segments)
    ensures "/" + Implode("/", segments) != "/"
    ensures ReplaceChar(DropFirst("/" + Implode("/", segments)), '/', '.') == Implode(".", segments)
  {
    ImplodeLast("/", segments);
    assert DropFirst("/" + Implode("/", segments)) == Implode("/", segments);
    ReplaceImplode(segments);
  }

  /** A single trailing dot goes, and nothing before it. */
  lemma TrimOneDot(s: string)
    requires s != [] && s[|s| - 1] != '.'
    ensures TrimRight(s + ".", IsDot) == s
  {
    assert (s + ".")[..|s|] == s;
  }

  /**
   * The pointer "/s1/.../sn" with the field f gives "s1. ... .sn.f", or
   * "s1. ... .sn" when f is empty.
   */
  lemma FieldPathJoin(segments: seq<string>, field: string)
    requires |segments| >= 1 && PlainSegments(segments)
    requires field == [] || field[|field| - 1] != '.'
    ensures FieldPath("/" + Implode("/", segments), field)
         == Implode(".", if field == [] then segments else segments + [field])
  {
    PointerDotted(segments);
    var dotted := Implode(".", segments);
    ImplodeLast(".", segments);
    if field == [] {
      assert dotted + "." + field == dotted + ".";
      TrimOneDot(dotted);
    } else {
      ImplodeSnoc(".", segments, field);
      var whole := dotted + "." + field;
      assert whole[|whole| - 1] == field[|field| - 1];
    }
  }

  /** Reading the dotted path back: splitting on '.' recovers the pointer's segments and the field. */
  lemma FieldPathSplits(segments: seq<string>, field: string)
    requires |segments| >= 1 && PlainSegments(segments)
    requires Lacks(field, '.')
    ensures Split(FieldPath("/" + Implode("/", segments), field), '.')
         == if field == [] then segments else segments + [field]
  {
    FieldPathJoin(segments, field);
    DotFreePieces(segments, field);
    SplitImplode(if field == [] then segments else segments + [field], '.');
  }

  lemma DotFreePieces(segments: seq<string>, field: string)
    requires PlainSegments(segments) && Lacks(field, '.')
    ensures var pieces := if field == [] then segments else segments + [field];
            forall k :: 0 <= k < |pieces| ==> '.' !in pieces[k]
  {
    var pieces := if field == [] then segments else segments + [field];
    forall k | 0 <= k < |pieces| ensures '.' !in pieces[k] {
      if k < |segments| {
        assert pieces[k] == segments[k];
      } else {
        assert pieces[k] == field;
      }
    }
  }

  /** A field at the root keeps its name. */
  lemma RootField(field: string)
    requires Lacks(field, '.')
    ensures FieldPath("/", field) == field
  {
  }
}
