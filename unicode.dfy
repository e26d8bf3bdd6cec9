/**
  Python text as the normaliser sees it: a `str` is a sequence of code
  points, and unlike Dafny's `char` a code point may be a lone surrogate
  (U+D800..U+DFFF). This module gives `str.strip()` and the removal of
  surrogates, the two text operations applied to every feed field.
 */
module Unicode {

  /** A Unicode code point, surrogates included. */
  newtype CodePoint = x: int | 0 <= x < 0x11_0000

  /** A Python `str`. */
  type Text = seq<CodePoint>

  /** Python's `str.isspace()` for one code point: the characters that
      `str.strip()` with no argument removes. */
  predicate IsSpace(c: CodePoint) {
    (0x09 <= c <= 0x0D) || (0x1C <= c <= 0x20) || c == 0x85 || c == 0xA0 ||
    c == 0x1680 || (0x2000 <= c <= 0x200A) || c == 0x2028 || c == 0x2029 ||
    c == 0x202F || c == 0x205F || c == 0x3000
  }

  /** A lone surrogate: a code point that UTF-8 cannot encode. */
  predicate IsSurrogate(c: CodePoint) {
    0xD800 <= c <= 0xDFFF
  }

  predicate NoSurrogates(s: Text) {
    forall k :: 0 <= k < |s| ==> !IsSurrogate(s[k])
  }

  predicate AllSpace(s: Text) {
    forall k :: 0 <= k < |s| ==> IsSpace(s[k])
  }

  /** `s` with its leading whitespace removed: a suffix of `s` that does
      not begin with whitespace. */
  function TrimLeft(s: Text): (r: Text)
    ensures |r| <= |s| && r == s[|s| - |r|..]
    ensures r == [] || !IsSpace(r[0])
  {
    if |s| > 0 && IsSpace(s[0]) then TrimLeft(s[1..]) else s
  }

  /** `s` with its trailing whitespace removed: a prefix of `s` that does
      not end with whitespace. */
  function TrimRight(s: Text): (r: Text)
    ensures |r| <= |s| && r == s[..|r|]
    ensures r == [] || !IsSpace(r[|r| - 1])
  {
    if |s| > 0 && IsSpace(s[|s| - 1]) then TrimRight(s[..|s| - 1]) else s
  }

  /** What `TrimLeft` cuts off is whitespace only. */
  lemma {:induction false} TrimLeftCutsSpace(s: Text)
    ensures AllSpace(s[..|s| - |TrimLeft(s)|])
  {
    if |s| > 0 && IsSpace(s[0]) {
      TrimLeftCutsSpace(s[1..]);
      var r := TrimLeft(s[1..]);
      assert s[..|s| - |r|] == [s[0]] + s[1..][..|s| - 1 - |r|];
    }
  }

  /** What `TrimRight` cuts off is whitespace only. */
  lemma {:induction false} TrimRightCutsSpace(s: Text)
    ensures AllSpace(s[|TrimRight(s)|..])
  {
    if |s| > 0 && IsSpace(s[|s| - 1]) {
      TrimRightCutsSpace(s[..|s| - 1]);
      var r := TrimRight(s[..|s| - 1]);
      assert s[|r|..] == s[..|s| - 1][|r|..] + [s[|s| - 1]];
    }
  }

  /** Python's `s.strip()`. */
  function Strip(s: Text): (r: Text)
    ensures |r| <= |s|
    ensures r == [] || (!IsSpace(r[0]) && !IsSpace(r[|r| - 1]))
  {
    TrimRight(TrimLeft(s))
  }

  /** What `strip()` keeps is one slice `s[i..j]` of its argument, and all
      it cuts off on either side is whitespace. */
  lemma StripIsSlice(s: Text) returns (i: nat, j: nat)
    ensures i <= j <= |s| && Strip(s) == s[i..j]
    ensures AllSpace(s[..i]) && AllSpace(s[j..])
  {
    var t := TrimLeft(s);
    var r := TrimRight(t);
    i, j := |s| - |t|, |s| - |t| + |r|;
    TrimLeftCutsSpace(s);
    TrimRightCutsSpace(t);
    assert t == s[i..];
    assert r == t[..|r|] == s[i..j];
    assert s[j..] == t[|r|..];
  }

  /** Stripping twice cuts nothing more; whitespace-only text strips to
      the empty text. */
  lemma StripIdempotent(s: Text)
    ensures Strip(Strip(s)) == Strip(s)
    ensures AllSpace(s) ==> Strip(s) == []
  {
    var t := TrimLeft(s);
    assert t != [] ==> t[0] == s[|s| - |t|];
    assert t == [] ==> TrimRight(t) == [];
  }

  /** `s` with every lone surrogate removed and nothing else changed. */
  function DropSurrogates(s: Text): (r: Text)
    ensures NoSurrogates(r)
    ensures |r| <= |s|
    ensures NoSurrogates(s) ==> r == s
  {
    if s == [] then []
    else Keep(s[0]) + DropSurrogates(s[1..])
  }

  /** What surrogate removal keeps of one code point. */
  function Keep(c: CodePoint): Text {
    if IsSurrogate(c) then [] else [c]
  }

  /** Dropping surrogates works piece by piece, so it keeps the order of
      what remains. */
  lemma {:induction false} DropSurrogatesConcat(a: Text, b: Text)
    ensures DropSurrogates(a + b) == DropSurrogates(a) + DropSurrogates(b)
  {
    if a == [] {
      assert a + b == b;
    } else {
      assert (a + b)[0] == a[0];
      assert (a + b)[1..] == a[1..] + b;
      DropSurrogatesConcat(a[1..], b);
      calc {
        DropSurrogates(a + b);
        Keep(a[0]) + DropSurrogates(a[1..] + b);
        Keep(a[0]) + (DropSurrogates(a[1..]) + DropSurrogates(b));
        (Keep(a[0]) + DropSurrogates(a[1..])) + DropSurrogates(b);
      }
    }
  }

  /** The text is emptied by dropping surrogates exactly when it is made
      of surrogates only. */
  lemma {:induction false} DropSurrogatesEmpty(s: Text)
    ensures DropSurrogates(s) == [] <==> (forall k :: 0 <= k < |s| ==> IsSurrogate(s[k]))
  {
    if s != [] {
      DropSurrogatesEmpty(s[1..]);
      assert forall k :: 1 <= k < |s| ==> s[k] == s[1..][k - 1];
    }
  }
}
