/** The text fields of the mixture form: Python's `str.split(" ")` and `str.strip()`,
    the comprehension that turns a field into its non-empty tokens, `float()` applied
    to every token, and the errors the form reports. */
module FormText {
  import opened Wrappers
  import opened Sequences

  /** The characters Python's `str.isspace` accepts: ASCII whitespace (tab to carriage
      return, and the information separators U+001C..U+001F next to space), and the
      Unicode space and line separators. */
  predicate IsSpace(c: char)
  {
    || ('\t' <= c <= '\r')
    || ('\U{1C}' <= c <= ' ')
    || c == '\U{85}' || c == '\U{A0}' || c == '\U{1680}'
    || ('\U{2000}' <= c <= '\U{200A}')
    || c == '\U{2028}' || c == '\U{2029}' || c == '\U{202F}' || c == '\U{205F}' || c == '\U{3000}'
  }

  /** The `ValueError`s the mixture form raises while reading its fields. */
  datatype InputError =
    // The payload names the token that failed to convert; the source shows the
    // conversion library's own exception message instead.
    | InvalidComponent(token: string)
    | NonNumericFractions
    | CountMismatch(components: nat, fractions: nat)
    | NonNumericTemperature
    | NonNumericKij
    | KijCountMismatch(expected: nat, got: nat)
    | NonNumericPressure

  /** `" ".join(pieces)`. */
  function JoinSpaces(pieces: seq<string>): string
  {
    if pieces == [] then ""
    else if |pieces| == 1 then pieces[0]
    else pieces[0] + " " + JoinSpaces(pieces[1..])
  }

  predicate SpaceFree(pieces: seq<string>)
  {
    forall i :: 0 <= i < |pieces| ==> ' ' !in pieces[i]
  }

  /** `s.split(" ")`: the pieces between single spaces, empty pieces included. */
  function SplitSpaces(s: string): (pieces: seq<string>)
    ensures |pieces| > 0 && SpaceFree(pieces)
    ensures JoinSpaces(pieces) == s
  {
    if s == [] then [""]
    else
      var rest := SplitSpaces(s[1..]);
      if s[0] == ' ' then
        assert ([""] + rest)[1..] == rest;
        [""] + rest
      else
        var pieces := [[s[0]] + rest[0]] + rest[1..];
        assert pieces[1..] == rest[1..];
        assert s == [s[0]] + s[1..];
        assert |rest| > 1 ==> JoinSpaces(rest) == rest[0] + " " + JoinSpaces(rest[1..]);
        assert |rest| > 1 ==> JoinSpaces(pieces) == ([s[0]] + rest[0]) + " " + JoinSpaces(rest[1..]);
        pieces
  }

  /** The position of the first space in `s`, or `|s|` when there is none. */
  function FirstSpace(s: string): (k: nat)
    ensures k <= |s| && (k < |s| <==> ' ' in s)
    ensures k < |s| ==> s[k] == ' '
    ensures forall i :: 0 <= i < k ==> s[i] != ' '
  {
    if s == [] || s[0] == ' ' then 0 else 1 + FirstSpace(s[1..])
  }

  lemma FirstSpaceAfterWord(a: string, x: string)
    requires ' ' !in a
    ensures FirstSpace(a + " " + x) == |a|
  {
    var s := a + " " + x;
    assert s[|a|] == ' ';
    assert forall i :: 0 <= i < |a| ==> s[i] == a[i];
  }

  /** Two space-free words followed by a space and anything are equal only if the
      words are. */
  lemma SpaceSeparatedPrefix(a: string, x: string, b: string, y: string)
    requires ' ' !in a && ' ' !in b
    requires a + " " + x == b + " " + y
    ensures a == b && x == y
  {
    FirstSpaceAfterWord(a, x);
    FirstSpaceAfterWord(b, y);
    assert a == (a + " " + x)[..|a|] == (b + " " + y)[..|b|] == b;
    assert x == (a + " " + x)[|a| + 1..] == (b + " " + y)[|b| + 1..] == y;
  }

  /** A space-free word is never a word, a space and more. */
  lemma SpaceFreeNotSplit(a: string, x: string, b: string)
    requires ' ' !in b
    ensures a + " " + x != b
  {
    assert (a + " " + x)[|a|] == ' ';
  }

  /** Joining is injective on space-free piece lists that are not empty. */
  lemma {:induction false} JoinInjective(ps: seq<string>, qs: seq<string>)
    requires |ps| > 0 && |qs| > 0 && SpaceFree(ps) && SpaceFree(qs)
    requires JoinSpaces(ps) == JoinSpaces(qs)
    ensures ps == qs
  {
    if |ps| == 1 && |qs| == 1 {
    } else if |ps| == 1 {
      SpaceFreeNotSplit(qs[0], JoinSpaces(qs[1..]), ps[0]);
    } else if |qs| == 1 {
      SpaceFreeNotSplit(ps[0], JoinSpaces(ps[1..]), qs[0]);
    } else {
      SpaceSeparatedPrefix(ps[0], JoinSpaces(ps[1..]), qs[0], JoinSpaces(qs[1..]));
      JoinInjective(ps[1..], qs[1..]);
      assert ps == [ps[0]] + ps[1..] && qs == [qs[0]] + qs[1..];
    }
  }

  /** `" ".join(ps).split(" ") == ps` for space-free pieces: splitting and joining are
      inverse. */
  lemma SplitJoin(ps: seq<string>)
    requires |ps| > 0 && SpaceFree(ps)
    ensures SplitSpaces(JoinSpaces(ps)) == ps
  {
    JoinInjective(SplitSpaces(JoinSpaces(ps)), ps);
  }

  lemma {:induction false} JoinAppend(ps: seq<string>, qs: seq<string>)
    requires |ps| > 0 && |qs| > 0
    ensures JoinSpaces(ps + qs) == JoinSpaces(ps) + " " + JoinSpaces(qs)
  {
    assert (ps + qs)[0] == ps[0];
    if |ps| == 1 {
      assert (ps + qs)[1..] == qs;
    } else {
      JoinAppend(ps[1..], qs);
      assert (ps + qs)[1..] == ps[1..] + qs;
    }
  }

  lemma SpaceFreeAppend(ps: seq<string>, qs: seq<string>)
    requires SpaceFree(ps) && SpaceFree(qs)
    ensures SpaceFree(ps + qs)
  {
    forall i | 0 <= i < |ps + qs| ensures ' ' !in (ps + qs)[i] {
      if i >= |ps| {
        assert (ps + qs)[i] == qs[i - |ps|];
      }
    }
  }

  /** Splitting at one space splits the two sides independently. */
  lemma SplitAppend(a: string, b: string)
    ensures SplitSpaces(a + " " + b) == SplitSpaces(a) + SplitSpaces(b)
  {
    var pa, pb := SplitSpaces(a), SplitSpaces(b);
    JoinAppend(pa, pb);
    SpaceFreeAppend(pa, pb);
    SplitJoin(pa + pb);
  }

  /** `s.lstrip()`. */
  function StripStart(s: string): (r: string)
    ensures |r| <= |s| && r == s[|s| - |r|..]
    ensures forall i :: 0 <= i < |s| - |r| ==> IsSpace(s[i])
    ensures r != [] ==> !IsSpace(r[0])
  {
    if s != [] && IsSpace(s[0]) then StripStart(s[1..]) else s
  }

  /** `s.rstrip()`. */
  function StripEnd(s: string): (r: string)
    ensures |r| <= |s| && r == s[..|r|]
    ensures forall i :: |r| <= i < |s| ==> IsSpace(s[i])
    ensures r != [] ==> !IsSpace(r[|r| - 1])
  {
    if s != [] && IsSpace(s[|s| - 1]) then StripEnd(s[..|s| - 1]) else s
  }

  /** The number of leading whitespace characters of `s`. */
  function LeadingSpaces(s: string): (n: nat)
    ensures n <= |s| && s[n..] == StripStart(s)
    ensures forall i :: 0 <= i < n ==> IsSpace(s[i])
    ensures n < |s| ==> !IsSpace(s[n])
  {
    |s| - |StripStart(s)|
  }

  predicate IsStripped(s: string)
  {
    s == [] || (!IsSpace(s[0]) && !IsSpace(s[|s| - 1]))
  }

  /** `s.strip()`: `s` without its leading and trailing whitespace. */
  function Strip(s: string): (r: string)
    ensures IsStripped(r)
  {
    StripEnd(StripStart(s))
  }

  /** A prefix `r` of a suffix `t` of `s` is a slice of `s`, and what `t` has beyond
      `r` lies at the matching positions of `s`. */
  lemma PrefixOfSuffix(s: string, t: string, r: string)
    requires |t| <= |s| && t == s[|s| - |t|..] && |r| <= |t| && r == t[..|r|]
    ensures r == s[|s| - |t|..|s| - |t| + |r|]
    ensures forall i :: |s| - |t| + |r| <= i < |s| ==> s[i] == t[i - (|s| - |t|)]
  {
  }

  /** The strip of `s` is a slice of `s`, and everything before and after the slice is
      whitespace. */
  lemma StripSlice(s: string)
    ensures LeadingSpaces(s) + |Strip(s)| <= |s|
    ensures Strip(s) == s[LeadingSpaces(s)..LeadingSpaces(s) + |Strip(s)|]
    ensures forall i :: 0 <= i < LeadingSpaces(s) ==> IsSpace(s[i])
    ensures forall i :: LeadingSpaces(s) + |Strip(s)| <= i < |s| ==> IsSpace(s[i])
  {
    var t := StripStart(s);
    var r := StripEnd(t);
    PrefixOfSuffix(s, t, r);
  }

  /** A stripped string is its own `strip()`. */
  lemma StripStripped(s: string)
    requires IsStripped(s)
    ensures Strip(s) == s
  {
    assert StripStart(s) == s;
  }

  /** The strip of a space-free string is space-free. */
  lemma StripSpaceFree(s: string)
    requires ' ' !in s
    ensures ' ' !in Strip(s)
  {
    var r, a := Strip(s), LeadingSpaces(s);
    StripSlice(s);
    forall k | 0 <= k < |r| ensures r[k] != ' ' {
      assert r[k] == s[a + k];
    }
  }

  /** A token: non-empty, stripped and without spaces. */
  predicate IsToken(t: string)
  {
    |t| > 0 && IsStripped(t) && ' ' !in t
  }

  /** The non-empty strings of `ps`, in order. */
  function DropEmpty(ps: seq<string>): seq<string>
  {
    if ps == [] then []
    else (if ps[0] == "" then [] else [ps[0]]) + DropEmpty(ps[1..])
  }

  lemma {:induction false} DropEmptyAppend(ps: seq<string>, qs: seq<string>)
    ensures DropEmpty(ps + qs) == DropEmpty(ps) + DropEmpty(qs)
  {
    if ps == [] {
      assert ps + qs == qs;
    } else {
      var head := if ps[0] == "" then [] else [ps[0]];
      var d, e := DropEmpty(ps[1..]), DropEmpty(qs);
      assert (ps + qs)[0] == ps[0] && (ps + qs)[1..] == ps[1..] + qs;
      assert DropEmpty(ps + qs) == head + DropEmpty(ps[1..] + qs);
      DropEmptyAppend(ps[1..], qs);
      assert head + (d + e) == (head + d) + e;
    }
  }

  /** Only non-empty strings of `ps` survive. */
  lemma {:induction false} DropEmptyKeeps(ps: seq<string>, keep: string -> bool)
    requires forall i :: 0 <= i < |ps| && ps[i] != "" ==> keep(ps[i])
    ensures forall i :: 0 <= i < |DropEmpty(ps)| ==> DropEmpty(ps)[i] != "" && keep(DropEmpty(ps)[i])
  {
    if ps != [] {
      DropEmptyKeeps(ps[1..], keep);
      var head, rest := if ps[0] == "" then [] else [ps[0]], DropEmpty(ps[1..]);
      forall i | 0 <= i < |head + rest| ensures (head + rest)[i] != "" && keep((head + rest)[i]) {
        if i >= |head| {
          assert (head + rest)[i] == rest[i - |head|];
        }
      }
    }
  }

  /** A list without empty strings passes through unchanged. */
  lemma {:induction false} DropEmptyNone(ps: seq<string>)
    requires forall i :: 0 <= i < |ps| ==> ps[i] != ""
    ensures DropEmpty(ps) == ps
  {
    if ps != [] {
      DropEmptyNone(ps[1..]);
      assert ps == [ps[0]] + ps[1..];
    }
  }

  /** The tokens of a text field, `[p.strip() for p in s.split(" ") if p.strip()]`:
      the non-empty stripped pieces between spaces. Repeated spaces produce empty
      pieces, which are dropped. */
  function Tokens(s: string): seq<string>
  {
    DropEmpty(Map(SplitSpaces(s), Strip))
  }

  /** Every token is non-empty, stripped and space-free. */
  lemma TokensAreTokens(s: string)
    ensures forall i :: 0 <= i < |Tokens(s)| ==> IsToken(Tokens(s)[i])
  {
    var ps := SplitSpaces(s);
    var stripped := Map(ps, Strip);
    forall i | 0 <= i < |stripped| && stripped[i] != "" ensures IsToken(stripped[i]) {
      StripSpaceFree(ps[i]);
    }
    DropEmptyKeeps(stripped, IsToken);
  }

  /** Stripping every piece of a token list changes nothing. */
  lemma StripTokens(ts: seq<string>)
    requires forall i :: 0 <= i < |ts| ==> IsToken(ts[i])
    ensures Map(ts, Strip) == ts
  {
    forall i | 0 <= i < |ts| ensures Strip(ts[i]) == ts[i] {
      StripStripped(ts[i]);
    }
  }

  /** An empty field has no tokens. */
  lemma TokensEmpty()
    ensures Tokens("") == []
  {
    var ps := SplitSpaces("");
    assert ps == [""];
    StripSlice("");
    var m := Map(ps, Strip);
    assert |m| == 1 && m[0] == Strip("") == "";
    assert DropEmpty(m) == DropEmpty(m[1..]);
    assert m[1..] == [];
  }

  /** Tokenizing text joined from tokens gives the tokens back. */
  lemma TokensOfJoin(ts: seq<string>)
    requires forall i :: 0 <= i < |ts| ==> IsToken(ts[i])
    ensures Tokens(JoinSpaces(ts)) == ts
  {
    if ts == [] {
      TokensEmpty();
    } else {
      var ps := SplitSpaces(JoinSpaces(ts));
      assert ps == ts by {
        SplitJoin(ts);
      }
      assert Map(ps, Strip) == ts by {
        StripTokens(ts);
      }
      DropEmptyNone(ts);
    }
  }

  /** Tokenizing is additive across a space: extra spaces never add tokens. */
  lemma TokensAppend(a: string, b: string)
    ensures Tokens(a + " " + b) == Tokens(a) + Tokens(b)
  {
    SplitAppend(a, b);
    MapAppend(SplitSpaces(a), SplitSpaces(b), Strip);
    DropEmptyAppend(Map(SplitSpaces(a), Strip), Map(SplitSpaces(b), Strip));
  }

  lemma TokensOfOne(a: string)
    requires IsToken(a)
    ensures Tokens(a) == [a]
  {
    TokensOfJoin([a]);
  }

  /** A leading space adds no token. */
  lemma TokensLeadingSpace(b: string)
    ensures Tokens(" " + b) == Tokens(b)
  {
    var s := " " + b;
    assert s[0] == ' ' && s[1..] == b;
    var pb := SplitSpaces(b);
    assert SplitSpaces(s) == [""] + pb;
    MapCons("", pb, Strip);
    var m := [Strip("")] + Map(pb, Strip);
    assert m[0] == "" && m[1..] == Map(pb, Strip);
  }

  /** Two tokens separated by two spaces read as exactly those two tokens: the empty
      piece between the spaces is dropped. */
  lemma DoubleSpace(a: string, b: string)
    ensures a + "  " + b == a + " " + (" " + b)
  {
    var sp := " ";
    assert sp + sp == "  ";
    assert (a + sp) + (sp + b) == ((a + sp) + sp) + b;
    assert (a + sp) + sp == a + (sp + sp);
  }

  lemma RepeatedSpaces(a: string, b: string)
    requires IsToken(a) && IsToken(b)
    ensures Tokens(a + "  " + b) == [a, b]
  {
    DoubleSpace(a, b);
    TokensAppend(a, " " + b);
    TokensLeadingSpace(b);
    TokensOfOne(a);
    TokensOfOne(b);
  }

  /** `[float(t) for t in tokens]`: `None` when some token is not a number. */
  function ParseAll(tokens: seq<string>, parse: string -> Option<real>): (r: Option<seq<real>>)
    ensures r.Some? <==> forall i :: 0 <= i < |tokens| ==> parse(tokens[i]).Some?
    ensures r.Some? ==>
      && |r.value| == |tokens|
      && forall i :: 0 <= i < |tokens| ==> r.value[i] == parse(tokens[i]).value
  {
    if tokens == [] then Some([])
    else
      var rest := ParseAll(tokens[1..], parse);
      assert forall i :: 1 <= i < |tokens| ==> tokens[i] == tokens[1..][i - 1];
      if parse(tokens[0]).Some? && rest.Some? then Some([parse(tokens[0]).value] + rest.value)
      else None
  }

  /** `[convert(t) for t in tokens]` where `convert` may raise: the index of the first
      token that fails, or every converted token. */
  function ConvertAll(tokens: seq<string>, convert: string -> Option<string>): (r: Result<seq<string>, nat>)
    ensures r.Ok? <==> forall i :: 0 <= i < |tokens| ==> convert(tokens[i]).Some?
    ensures r.Ok? ==>
      && |r.value| == |tokens|
      && forall i :: 0 <= i < |tokens| ==> r.value[i] == convert(tokens[i]).value
    ensures r.Err? ==>
      && r.error < |tokens| && convert(tokens[r.error]).None?
      && forall i :: 0 <= i < r.error ==> convert(tokens[i]).Some?
  {
    if tokens == [] then Ok([])
    else
      match convert(tokens[0])
      case None => Err(0)
      case Some(c) =>
        match ConvertAll(tokens[1..], convert)
        case Ok(cs) => Ok([c] + cs)
        case Err(k) =>
          assert convert(tokens[k + 1]) == convert(tokens[1..][k]);
          Err(k + 1)
  }
}
