/**
 * The three Python string operations that app.py:19 chains together:
 * `s.split()` (split on runs of whitespace, dropping empty words),
 * `"".join(words)` and `s.split(sep)[-1]` (the field after the last separator).
 */
module PyStr {

  /** The characters Python's `str.isspace` accepts, which `str.split()` with no argument splits on. */
  predicate IsSpace(c: char) {
    var n := c as int;
    || 0x09 <= n <= 0x0D
    || 0x1C <= n <= 0x20
    || n == 0x85 || n == 0xA0 || n == 0x1680
    || 0x2000 <= n <= 0x200A
    || n == 0x2028 || n == 0x2029 || n == 0x202F || n == 0x205F || n == 0x3000
  }

  predicate NoSpace(s: string) {
    forall i :: 0 <= i < |s| ==> !IsSpace(s[i])
  }

  /** The non-whitespace characters of `s`, in their order: the reference for `"".join(s.split())`. */
  function RemoveSpace(s: string): (r: string)
    ensures NoSpace(r)
    ensures |r| <= |s|
    ensures NoSpace(s) ==> r == s
  {
    if s == [] then []
    else (if IsSpace(s[0]) then [] else [s[0]]) + RemoveSpace(s[1..])
  }

  lemma {:induction false} RemoveSpaceAppend(s: string, t: string)
    ensures RemoveSpace(s + t) == RemoveSpace(s) + RemoveSpace(t)
  {
    if s != [] {
      assert (s + t)[0] == s[0];
      assert (s + t)[1..] == s[1..] + t;
      RemoveSpaceAppend(s[1..], t);
      calc {
        RemoveSpace(s + t);
        (if IsSpace(s[0]) then [] else [s[0]]) + RemoveSpace(s[1..] + t);
        (if IsSpace(s[0]) then [] else [s[0]]) + (RemoveSpace(s[1..]) + RemoveSpace(t));
      }
    } else {
      assert s + t == t;
    }
  }

  /** Removing whitespace twice removes nothing more. */
  lemma RemoveSpaceIdempotent(s: string)
    ensures RemoveSpace(RemoveSpace(s)) == RemoveSpace(s)
  {
  }

  /** `s.split()` scanning from the current position, with `word` the non-space run read so far. */
  function SplitWordsFrom(s: string, word: string): (r: seq<string>)
    decreases |s|
  {
    if s == [] then (if word == [] then [] else [word])
    else if IsSpace(s[0]) then (if word == [] then [] else [word]) + SplitWordsFrom(s[1..], [])
    else SplitWordsFrom(s[1..], word + [s[0]])
  }

  /** Python's `s.split()`: the maximal runs of non-whitespace characters. */
  function SplitWords(s: string): (r: seq<string>)
    ensures forall w :: w in r ==> w != [] && NoSpace(w)
  {
    SplitWordsFromWords(s, []);
    SplitWordsFrom(s, [])
  }

  /** Python's `"".join(ws)`: joining words without whitespace gives text without whitespace. */
  function Concat(ws: seq<string>): (r: string)
    ensures (forall w :: w in ws ==> NoSpace(w)) ==> NoSpace(r)
  {
    if ws == [] then []
    else
      var rest := Concat(ws[1..]);
      assert forall w :: w in ws[1..] ==> w in ws;
      NoSpaceAppend(ws[0], rest);
      ws[0] + rest
  }

  lemma NoSpaceJoin(s: string, t: string)
    requires NoSpace(s) && NoSpace(t)
    ensures NoSpace(s + t)
  {
    NoSpaceAppend(s, t);
  }

  /** A concatenation is free of whitespace exactly when both parts are. */
  lemma NoSpaceAppend(s: string, t: string)
    ensures NoSpace(s + t) <==> NoSpace(s) && NoSpace(t)
  {
    assert forall i :: 0 <= i < |s| ==> (s + t)[i] == s[i];
    assert forall j :: 0 <= j < |t| ==> (s + t)[|s| + j] == t[j];
  }

  lemma {:induction false} ConcatAppend(ws: seq<string>, vs: seq<string>)
    ensures Concat(ws + vs) == Concat(ws) + Concat(vs)
  {
    if ws != [] {
      assert (ws + vs)[0] == ws[0];
      assert (ws + vs)[1..] == ws[1..] + vs;
      ConcatAppend(ws[1..], vs);
      calc {
        Concat(ws + vs);
        ws[0] + Concat(ws[1..] + vs);
        ws[0] + (Concat(ws[1..]) + Concat(vs));
      }
    } else {
      assert ws + vs == vs;
    }
  }

  lemma {:induction false} SplitWordsFromConcat(s: string, word: string)
    ensures Concat(SplitWordsFrom(s, word)) == word + RemoveSpace(s)
    decreases |s|
  {
    if s == [] {
    } else if IsSpace(s[0]) {
      SplitWordsFromConcat(s[1..], []);
      ConcatAppend(if word == [] then [] else [word], SplitWordsFrom(s[1..], []));
    } else {
      SplitWordsFromConcat(s[1..], word + [s[0]]);
    }
  }

  /** Every word `s.split()` returns is non-empty and holds no whitespace. */
  lemma {:induction false} SplitWordsFromWords(s: string, word: string)
    requires NoSpace(word)
    ensures forall w :: w in SplitWordsFrom(s, word) ==> w != [] && NoSpace(w)
    decreases |s|
  {
    if s == [] {
    } else if IsSpace(s[0]) {
      SplitWordsFromWords(s[1..], []);
    } else {
      SplitWordsFromWords(s[1..], word + [s[0]]);
    }
  }

  /** `"".join(s.split())` deletes every whitespace character and keeps the rest in order. */
  lemma JoinSplitWords(s: string)
    ensures Concat(SplitWords(s)) == RemoveSpace(s)
    ensures forall w :: w in SplitWords(s) ==> w != [] && NoSpace(w)
  {
    SplitWordsFromConcat(s, []);
    SplitWordsFromWords(s, []);
  }

  /** `s.split(sep)` scanning from the current position, with `field` the field read so far. */
  function SplitOnFrom(s: string, sep: char, field: string): (r: seq<string>)
    ensures |r| >= 1
    decreases |s|
  {
    if s == [] then [field]
    else if s[0] == sep then [field] + SplitOnFrom(s[1..], sep, [])
    else SplitOnFrom(s[1..], sep, field + [s[0]])
  }

  /** Python's `s.split(sep)` for a one-character separator: never an empty list. */
  function SplitOn(s: string, sep: char): (r: seq<string>)
    ensures |r| >= 1
  {
    SplitOnFrom(s, sep, [])
  }

  /** Python's `xs[-1]`. */
  function Last<T>(xs: seq<T>): (r: T)
    requires |xs| >= 1
  {
    xs[|xs| - 1]
  }

  /** Python's `sep.join(fs)` for a one-character separator. */
  function JoinWith(sep: char, fs: seq<string>): (r: string)
    requires |fs| >= 1
  {
    if |fs| == 1 then fs[0] else fs[0] + [sep] + JoinWith(sep, fs[1..])
  }

  /** Joining the fields of a split with the same separator gives back the string. */
  lemma {:induction false} JoinSplitOnFrom(s: string, sep: char, field: string)
    ensures JoinWith(sep, SplitOnFrom(s, sep, field)) == field + s
    decreases |s|
  {
    if s == [] {
    } else if s[0] == sep {
      JoinSplitOnFrom(s[1..], sep, []);
      assert SplitOnFrom(s, sep, field)[1..] == SplitOnFrom(s[1..], sep, []);
      assert field + [sep] + s[1..] == field + s;
    } else {
      JoinSplitOnFrom(s[1..], sep, field + [s[0]]);
      assert field + [s[0]] + s[1..] == field + s;
    }
  }

  lemma JoinSplitOn(s: string, sep: char)
    ensures JoinWith(sep, SplitOn(s, sep)) == s
  {
    JoinSplitOnFrom(s, sep, []);
  }

  /**
   * `t` is the part of `s` after its last `sep`, or all of `s` when `s` holds no `sep`:
   * a suffix of `s` without `sep` that is either all of `s` or preceded by `sep`.
   */
  predicate IsLastField(t: string, s: string, sep: char) {
    && |t| <= |s|
    && t == s[|s| - |t|..]
    && sep !in t
    && (|t| == |s| || s[|s| - |t| - 1] == sep)
  }

  lemma {:induction false} LastSplitOnFrom(s: string, sep: char, field: string)
    requires sep !in field
    ensures IsLastField(Last(SplitOnFrom(s, sep, field)), field + s, sep)
    decreases |s|
  {
    if s == [] {
      assert field + s == field;
      assert field[0..] == field;
    } else if s[0] == sep {
      LastSplitOnFrom(s[1..], sep, []);
      assert [] + s[1..] == s[1..];
      LastSplitOnFromSep(s, sep, field);
    } else {
      assert sep !in field + [s[0]];
      LastSplitOnFrom(s[1..], sep, field + [s[0]]);
      LastSplitOnFromOther(s, sep, field);
    }
  }

  /** The step of `LastSplitOnFrom` at a separator: the field read so far is closed off. */
  lemma LastSplitOnFromSep(s: string, sep: char, field: string)
    requires s != [] && s[0] == sep
    requires IsLastField(Last(SplitOnFrom(s[1..], sep, [])), s[1..], sep)
    ensures IsLastField(Last(SplitOnFrom(s, sep, field)), field + s, sep)
  {
    var rest := SplitOnFrom(s[1..], sep, []);
    assert (field + [sep]) + s[1..] == field + s;
    LastFieldExtend(Last(rest), s[1..], field + [sep], sep);
    assert SplitOnFrom(s, sep, field) == [field] + rest;
    assert Last([field] + rest) == Last(rest);
  }

  /** The step of `LastSplitOnFrom` at any other character: it joins the field read so far. */
  lemma LastSplitOnFromOther(s: string, sep: char, field: string)
    requires s != [] && s[0] != sep
    requires IsLastField(Last(SplitOnFrom(s[1..], sep, field + [s[0]])), field + [s[0]] + s[1..], sep)
    ensures IsLastField(Last(SplitOnFrom(s, sep, field)), field + s, sep)
  {
    assert field + [s[0]] + s[1..] == field + s;
  }

  /** The last field of `u` stays the last field when text ending in `sep` is put before `u`. */
  lemma LastFieldExtend(t: string, u: string, p: string, sep: char)
    requires IsLastField(t, u, sep)
    requires p != [] && p[|p| - 1] == sep
    ensures IsLastField(t, p + u, sep)
  {
    var s := p + u;
    assert s[|s| - |t|..] == u[|u| - |t|..];
    if |t| == |u| {
      assert s[|s| - |t| - 1] == p[|p| - 1];
    } else {
      assert s[|s| - |t| - 1] == u[|u| - |t| - 1];
    }
  }

  /** A string has at most one last field. */
  lemma LastFieldUnique(t: string, u: string, s: string, sep: char)
    requires IsLastField(t, s, sep) && IsLastField(u, s, sep)
    ensures t == u
  {
  }

  /** `s.split(sep)[-1]` is the part after the last `sep`, or `s` itself when it holds none. */
  lemma LastSplitOn(s: string, sep: char)
    ensures IsLastField(Last(SplitOn(s, sep)), s, sep)
    ensures sep !in s ==> Last(SplitOn(s, sep)) == s
  {
    LastSplitOnFrom(s, sep, []);
    assert [] + s == s;
  }

  /**
   * `s.split(sep)[-1] == t`, for `t` free of `sep`, exactly when `s` is `t`
   * or ends in `sep` followed by `t`.
   */
  lemma LastSplitOnIs(s: string, sep: char, t: string)
    requires sep !in t
    ensures Last(SplitOn(s, sep)) == t <==> (s == t || (|s| > |t| && s[|s| - |t| - 1..] == [sep] + t))
  {
    LastSplitOn(s, sep);
    if s == t || (|s| > |t| && s[|s| - |t| - 1..] == [sep] + t) {
      if s != t {
        assert s[|s| - |t| - 1] == ([sep] + t)[0];
        assert s[|s| - |t|..] == s[|s| - |t| - 1..][1..];
      }
      assert IsLastField(t, s, sep);
      LastFieldUnique(t, Last(SplitOn(s, sep)), s, sep);
    }
  }
}
