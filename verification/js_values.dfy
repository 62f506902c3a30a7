/**
 * The JavaScript values the route handlers receive (a field of `req.body`
 * or `req.query`) and the string operations they apply to them:
 * truthiness, `String.prototype.trim`, `String.prototype.length` and
 * `Buffer.byteLength(s, "utf8")`.
 *
 * A Dafny `string` is a sequence of Unicode scalar values, so a string here
 * is the sequence of code points of the JavaScript string.
 */
module JsValues {
  import opened Options

  /** A request field: absent, a string, or any other JSON value
      (number, boolean, null, array, object) of which only its truthiness matters. */
  datatype Json = Missing | Str(s: string) | Other(truthy: bool)

  /** JavaScript truthiness (`!v` is false): the empty string is falsy. */
  predicate Truthy(v: Json)
  {
    match v
    case Missing => false
    case Str(s) => s != ""
    case Other(t) => t
  }

  /** The characters `trim` removes: ECMAScript WhiteSpace and LineTerminator. */
  predicate IsJsSpace(c: char)
  {
    c == '\t' || c == '\n' || c == '\U{000B}' || c == '\U{000C}' || c == '\r'
    || c == ' ' || c == '\U{00A0}' || c == '\U{1680}'
    || ('\U{2000}' <= c <= '\U{200A}')
    || c == '\U{2028}' || c == '\U{2029}' || c == '\U{202F}' || c == '\U{205F}'
    || c == '\U{3000}' || c == '\U{FEFF}'
  }

  predicate AllSpace(s: string)
  {
    forall i :: 0 <= i < |s| ==> IsJsSpace(s[i])
  }

  /** Strips leading white space: what is left is a suffix of `s` that does
      not start with white space, and everything removed was white space. */
  function TrimStart(s: string): (r: string)
    ensures |r| <= |s| && r == s[|s| - |r|..]
    ensures AllSpace(s[..|s| - |r|])
    ensures r == [] || !IsJsSpace(r[0])
    decreases |s|
  {
    if |s| > 0 && IsJsSpace(s[0]) then TrimStart(s[1..]) else s
  }

  /** Strips trailing white space: a prefix of `s` not ending in white space,
      and everything removed was white space. */
  function TrimEnd(s: string): (r: string)
    ensures |r| <= |s| && r == s[..|r|]
    ensures AllSpace(s[|r|..])
    ensures r == [] || !IsJsSpace(r[|r| - 1])
    decreases |s|
  {
    if |s| > 0 && IsJsSpace(s[|s| - 1]) then TrimEnd(s[..|s| - 1]) else s
  }

  /** `String.prototype.trim`. */
  function Trim(s: string): string
  {
    TrimEnd(TrimStart(s))
  }

  /** Where the trimmed text starts in `s`. */
  function TrimOffset(s: string): nat
  {
    |s| - |TrimStart(s)|
  }

  /** The result of `trim` is the slice of `s` starting at `TrimOffset(s)`. */
  lemma TrimIsSlice(s: string)
    ensures TrimOffset(s) + |Trim(s)| <= |s|
    ensures Trim(s) == s[TrimOffset(s)..TrimOffset(s) + |Trim(s)|]
  {
    var t := TrimStart(s);
    var r := TrimEnd(t);
    var lo := |s| - |t|;
    calc {
      r;
      t[..|r|];
      s[lo..][..|r|];
      s[lo..lo + |r|];
    }
  }

  /** Only white space lies around the trimmed slice, and the trimmed text
      neither starts nor ends with white space: `trim` strips as much as it
      can and no more. */
  lemma TrimIsMaximalStrip(s: string)
    ensures TrimOffset(s) + |Trim(s)| <= |s|
    ensures AllSpace(s[..TrimOffset(s)]) && AllSpace(s[TrimOffset(s) + |Trim(s)|..])
    ensures Trim(s) == [] || (!IsJsSpace(Trim(s)[0]) && !IsJsSpace(Trim(s)[|Trim(s)| - 1]))
  {
    var t := TrimStart(s);
    var r := TrimEnd(t);
    var lo := |s| - |t|;
    assert s[lo + |r|..] == t[|r|..] by {
      assert t == s[lo..];
    }
    if r != [] {
      assert r[0] == t[0];
    }
  }

  /** A string trims to the empty string exactly when it is all white space. */
  lemma TrimEmptyIffAllSpace(s: string)
    ensures Trim(s) == "" <==> AllSpace(s)
  {
    TrimIsSlice(s);
    TrimIsMaximalStrip(s);
    var lo := TrimOffset(s);
    if Trim(s) == "" {
      // a non-empty TrimStart(s) keeps its non-space first character under TrimEnd
      assert TrimStart(s) == [];
      assert s[..lo] == s;
    } else {
      assert !IsJsSpace(s[lo]);
    }
  }

  /** Trimming twice is trimming once. */
  lemma TrimIdempotent(s: string)
    ensures Trim(Trim(s)) == Trim(s)
  {
    var t := Trim(s);
    TrimIsMaximalStrip(s);
    if t != [] {
      assert TrimStart(t) == t;
      assert TrimEnd(t) == t;
    }
  }

  /** Leading white space is skipped. */
  lemma {:induction false} TrimStartSkipsSpace(pre: string, x: string)
    requires AllSpace(pre)
    ensures TrimStart(pre + x) == TrimStart(x)
    decreases |pre|
  {
    if pre == [] {
      assert pre + x == x;
    } else {
      assert (pre + x)[0] == pre[0];
      assert (pre + x)[1..] == pre[1..] + x;
      TrimStartSkipsSpace(pre[1..], x);
    }
  }

  /** Trailing white space is skipped. */
  lemma {:induction false} TrimEndSkipsSpace(x: string, post: string)
    requires AllSpace(post)
    ensures TrimEnd(x + post) == TrimEnd(x)
    decreases |post|
  {
    if post == [] {
      assert x + post == x;
    } else {
      var p := post[..|post| - 1];
      assert (x + post)[|x + post| - 1] == post[|post| - 1];
      assert (x + post)[..|x + post| - 1] == x + p;
      TrimEndSkipsSpace(x, p);
    }
  }

  /** Leading white space is stripped up to the first other character, and
      whatever follows that character is kept as it is. */
  lemma {:induction false} TrimStartAppend(u: string, v: string)
    requires !AllSpace(u)
    ensures TrimStart(u + v) == TrimStart(u) + v
    decreases |u|
  {
    assert u != [];
    assert (u + v)[0] == u[0];
    if IsJsSpace(u[0]) {
      assert !AllSpace(u[1..]) by {
        var i :| 0 <= i < |u| && !IsJsSpace(u[i]);
        assert u[1..][i - 1] == u[i];
      }
      assert (u + v)[1..] == u[1..] + v;
      TrimStartAppend(u[1..], v);
    }
  }

  /** White space around a string does not change what it trims to. */
  lemma TrimIgnoresPadding(pre: string, u: string, post: string)
    requires AllSpace(pre) && AllSpace(post)
    ensures Trim(pre + u + post) == Trim(u)
  {
    assert pre + u + post == pre + (u + post);
    TrimStartSkipsSpace(pre, u + post);
    TrimEmptyIffAllSpace(u);
    if AllSpace(u) {
      assert AllSpace(u + post);
      TrimEmptyIffAllSpace(u + post);
    } else {
      TrimStartAppend(u, post);
      TrimEndSkipsSpace(TrimStart(u), post);
    }
  }

  /** The `url` check shared by the instant-check and tracked-sites handlers:
      a string that is not white space only, which is then trimmed. */
  function TrimmedUrl(v: Json): (r: Option<string>)
    ensures r.Some? <==> v.Str? && !AllSpace(v.s)
    ensures r.Some? ==> r.value != "" && r.value == Trim(v.s)
  {
    if !Truthy(v) || !v.Str? then None
    else
      TrimEmptyIffAllSpace(v.s);
      if Trim(v.s) == "" then None else Some(Trim(v.s))
  }

  /** An accepted `url` neither starts nor ends with white space. */
  lemma TrimmedUrlEdges(v: Json)
    requires TrimmedUrl(v).Some?
    ensures var u := TrimmedUrl(v).value; !IsJsSpace(u[0]) && !IsJsSpace(u[|u| - 1])
  {
    TrimIsMaximalStrip(v.s);
  }

  /** UTF-16 code units of one code point: `String.prototype.length` counts these. */
  function Utf16Units(c: char): nat
  {
    if c as int < 0x1_0000 then 1 else 2
  }

  /** `String.prototype.length`. */
  function Utf16Length(s: string): (n: nat)
    ensures |s| <= n <= 2 * |s|
  {
    if s == [] then 0 else Utf16Units(s[0]) + Utf16Length(s[1..])
  }

  /** Bytes of one code point in UTF-8. */
  function Utf8Bytes(c: char): nat
  {
    if c as int < 0x80 then 1
    else if c as int < 0x800 then 2
    else if c as int < 0x1_0000 then 3
    else 4
  }

  /** `Buffer.byteLength(s, "utf8")`: one to four bytes per code point. */
  function Utf8Length(s: string): (n: nat)
    ensures |s| <= n <= 4 * |s|
    ensures Utf16Length(s) <= n
  {
    if s == [] then 0 else Utf8Bytes(s[0]) + Utf8Length(s[1..])
  }

  /** The byte length of a concatenation is the sum of the byte lengths. */
  lemma {:induction false} Utf8LengthAppend(a: string, b: string)
    ensures Utf8Length(a + b) == Utf8Length(a) + Utf8Length(b)
  {
    if a == [] {
      assert a + b == b;
    } else {
      assert (a + b)[1..] == a[1..] + b;
      Utf8LengthAppend(a[1..], b);
    }
  }

  /** An ASCII-only string has as many bytes as characters. */
  lemma {:induction false} Utf8LengthAscii(s: string)
    requires forall i :: 0 <= i < |s| ==> s[i] as int < 0x80
    ensures Utf8Length(s) == |s| == Utf16Length(s)
  {
    if s != [] {
      Utf8LengthAscii(s[1..]);
    }
  }
}
