/**
 * Extraction of the login token from a raw `Cookie` request header, done
 * with plain string operations: split the header on ';', take the first
 * piece that starts with "token=", split that piece on '=' and keep the
 * second part.
 */
module CookieToken {
  import opened Protocol

  /** The inverse of `Split`: the pieces glued back together with `sep` between them. */
  function Join(pieces: seq<string>, sep: char): string
  {
    if pieces == [] then []
    else if |pieces| == 1 then pieces[0]
    else pieces[0] + [sep] + Join(pieces[1..], sep)
  }

  /**
   * JavaScript's `s.split(sep)` for a one-character separator: always at
   * least one piece, no piece contains the separator, and gluing the pieces
   * back together gives the original string.
   */
  function Split(s: string, sep: char): (r: seq<string>)
    ensures |r| >= 1
    ensures forall i :: 0 <= i < |r| ==> sep !in r[i]
    ensures Join(r, sep) == s
    decreases |s|
  {
    if s == [] then [[]]
    else
      var rest := Split(s[1..], sep);
      if s[0] == sep then
        [[]] + rest
      else
        assert Join([[s[0]] + rest[0]] + rest[1..], sep) == [s[0]] + Join(rest, sep);
        [[s[0]] + rest[0]] + rest[1..]
  }

  /** A string without the separator is a single piece. */
  lemma {:induction false} SplitNoSep(s: string, sep: char)
    requires sep !in s
    ensures Split(s, sep) == [s]
    decreases |s|
  {
    if s != [] {
      SplitNoSep(s[1..], sep);
      assert [s[0]] + s[1..] == s;
    }
  }

  /** The first separator ends the first piece; the rest is split on its own. */
  lemma {:induction false} SplitAtFirst(a: string, b: string, sep: char)
    requires sep !in a
    ensures Split(a + [sep] + b, sep) == [a] + Split(b, sep)
    decreases |a|
  {
    if a == [] {
      assert a + [sep] + b == [sep] + b;
      assert ([sep] + b)[1..] == b;
    } else {
      var s := a + [sep] + b;
      assert s[1..] == a[1..] + [sep] + b;
      SplitAtFirst(a[1..], b, sep);
      var rest := Split(s[1..], sep);
      assert rest[0] == a[1..] && rest[1..] == Split(b, sep);
      assert [s[0]] + rest[0] == a;
    }
  }

  /**
   * The first piece of a split is the longest prefix without the separator:
   * it is followed by the separator or by the end of the string.
   */
  lemma SplitHead(s: string, sep: char)
    ensures var h := Split(s, sep)[0];
      |h| <= |s| && s[..|h|] == h && sep !in h && (|h| == |s| || s[|h|] == sep)
  {
    var r := Split(s, sep);
    if |r| > 1 {
      assert Join(r, sep) == r[0] + [sep] + Join(r[1..], sep);
    }
  }

  /** Two separator-free prefixes that both end at a separator or at the end are the same. */
  lemma FirstSepPrefixUnique(s: string, sep: char, p: string, q: string)
    requires |p| <= |s| && s[..|p|] == p && sep !in p && (|p| == |s| || s[|p|] == sep)
    requires |q| <= |s| && s[..|q|] == q && sep !in q && (|q| == |s| || s[|q|] == sep)
    ensures p == q
  {
    assert forall k :: 0 <= k < |p| ==> s[k] == p[k] != sep;
    assert forall k :: 0 <= k < |q| ==> s[k] == q[k] != sep;
  }

  predicate StartsWith(s: string, prefix: string)
  {
    |prefix| <= |s| && s[..|prefix|] == prefix
  }

  /** JavaScript's `pieces.find(str => str.startsWith(prefix))`. */
  function FindFirst(pieces: seq<string>, prefix: string): (r: Option<string>)
    ensures r.None? <==> forall i :: 0 <= i < |pieces| ==> !StartsWith(pieces[i], prefix)
    ensures r.Some? ==>
      exists i :: 0 <= i < |pieces| && pieces[i] == r.value
        && StartsWith(pieces[i], prefix)
        && forall j :: 0 <= j < i ==> !StartsWith(pieces[j], prefix)
  {
    if pieces == [] then None
    else if StartsWith(pieces[0], prefix) then Some(pieces[0])
    else
      var r := FindFirst(pieces[1..], prefix);
      assert forall i :: 1 <= i < |pieces| ==> pieces[i] == pieces[1..][i - 1];
      r
  }

  /** The piece `find` returns is the first one with the prefix. */
  lemma {:induction false} FindFirstAt(pieces: seq<string>, prefix: string, i: nat)
    requires i < |pieces| && StartsWith(pieces[i], prefix)
    requires forall j :: 0 <= j < i ==> !StartsWith(pieces[j], prefix)
    ensures FindFirst(pieces, prefix) == Some(pieces[i])
    decreases i
  {
    if i > 0 {
      FindFirstAt(pieces[1..], prefix, i - 1);
    }
  }

  /** JavaScript's `parts[i]`: `undefined` past the end. */
  function At(parts: seq<string>, i: nat): Option<string>
  {
    if i < |parts| then Some(parts[i]) else None
  }

  const TokenPrefix: string := "token="

  /**
   * The token the connection handler hands to the verifier, or None when it
   * skips verification: the header is absent or empty, no piece starts with
   * "token=", or the text after "token=" is empty.
   */
  function TokenFromCookie(cookies: Option<string>): (r: Option<string>)
    ensures r.Some? ==> cookies.Some? && r.value != [] && '=' !in r.value
  {
    match cookies
    case None => None
    case Some(header) =>
      if header == [] then None
      else
        match FindFirst(Split(header, ';'), TokenPrefix)
        case None => None
        case Some(piece) =>
          var token := At(Split(piece, '='), 1);
          if Truthy(token) then token else None
  }

  /**
   * `t` is the token of `piece`: the piece starts with "token=" followed by
   * `t`, `t` has no '=', and the piece ends or has a '=' right after `t`.
   */
  predicate IsPieceToken(piece: string, t: string)
  {
    StartsWith(piece, TokenPrefix + t) && '=' !in t &&
    (|piece| == |TokenPrefix| + |t| || piece[|TokenPrefix| + |t|] == '=')
  }

  /**
   * Independent description of the token found in a header: piece `i` of the
   * header is the first one starting with "token=", and the non-empty `t` is
   * its token.
   */
  ghost predicate IsTokenOf(header: string, t: string)
  {
    var pieces := Split(header, ';');
    header != [] && t != [] &&
    exists i :: 0 <= i < |pieces|
      && (forall j :: 0 <= j < i ==> !StartsWith(pieces[j], TokenPrefix))
      && IsPieceToken(pieces[i], t)
  }

  /** The token of a piece that starts with "token=" is what follows up to the next '='. */
  lemma TokenOfPiece(piece: string)
    requires StartsWith(piece, TokenPrefix)
    ensures var rest := piece[|TokenPrefix|..];
      At(Split(piece, '='), 1) == Some(Split(rest, '=')[0])
  {
    var rest := piece[|TokenPrefix|..];
    assert piece == "token" + ['='] + rest;
    SplitAtFirst("token", rest, '=');
  }

  /** The text after "token=" up to the next '=' is a token of the piece. */
  lemma HeadIsPieceToken(piece: string)
    requires StartsWith(piece, TokenPrefix)
    ensures IsPieceToken(piece, Split(piece[|TokenPrefix|..], '=')[0])
  {
    var rest := piece[|TokenPrefix|..];
    SplitHead(rest, '=');
    var h := Split(rest, '=')[0];
    assert rest[..|h|] == h;
    assert piece[..|TokenPrefix| + |h|] == TokenPrefix + rest[..|h|];
    assert |h| < |rest| ==> piece[|TokenPrefix| + |h|] == rest[|h|];
  }

  /** A piece has at most one token. */
  lemma PieceTokenUnique(piece: string, t: string, t': string)
    requires IsPieceToken(piece, t) && IsPieceToken(piece, t')
    ensures t == t'
  {
    var rest := piece[|TokenPrefix|..];
    assert rest[..|t|] == piece[..|TokenPrefix| + |t|][|TokenPrefix|..];
    assert rest[..|t'|] == piece[..|TokenPrefix| + |t'|][|TokenPrefix|..];
    assert |t| < |rest| ==> piece[|TokenPrefix| + |t|] == rest[|t|];
    assert |t'| < |rest| ==> piece[|TokenPrefix| + |t'|] == rest[|t'|];
    FirstSepPrefixUnique(rest, '=', t, t');
  }

  /** For a piece that starts with "token=", `split("=")[1]` is exactly its token. */
  lemma PieceTokenExact(piece: string, t: string)
    requires StartsWith(piece, TokenPrefix)
    ensures At(Split(piece, '='), 1) == Some(t) <==> IsPieceToken(piece, t)
  {
    TokenOfPiece(piece);
    HeadIsPieceToken(piece);
    if IsPieceToken(piece, t) {
      PieceTokenUnique(piece, t, Split(piece[|TokenPrefix|..], '=')[0]);
    }
  }

  /** A piece that has a token starts with "token=". */
  lemma PieceTokenStartsWithPrefix(piece: string, t: string)
    requires StartsWith(piece, TokenPrefix + t)
    ensures StartsWith(piece, TokenPrefix)
  {
    assert piece[..|TokenPrefix|] == (TokenPrefix + t)[..|TokenPrefix|];
  }

  /** A token the handler extracts is one that `IsTokenOf` describes. */
  lemma TokenFromCookieSound(header: string, t: string)
    requires TokenFromCookie(Some(header)) == Some(t)
    ensures IsTokenOf(header, t)
  {
    var pieces := Split(header, ';');
    var piece := FindFirst(pieces, TokenPrefix).value;
    var i :| 0 <= i < |pieces| && pieces[i] == piece && StartsWith(pieces[i], TokenPrefix)
      && forall j :: 0 <= j < i ==> !StartsWith(pieces[j], TokenPrefix);
    PieceTokenExact(piece, t);
  }

  /** Every token that `IsTokenOf` describes is the one the handler extracts. */
  lemma TokenFromCookieComplete(header: string, t: string)
    requires IsTokenOf(header, t)
    ensures TokenFromCookie(Some(header)) == Some(t)
  {
    var pieces := Split(header, ';');
    var i :| 0 <= i < |pieces|
      && (forall j :: 0 <= j < i ==> !StartsWith(pieces[j], TokenPrefix))
      && IsPieceToken(pieces[i], t);
    PieceTokenStartsWithPrefix(pieces[i], t);
    FindFirstAt(pieces, TokenPrefix, i);
    PieceTokenExact(pieces[i], t);
  }

  /**
   * The cases in which no token is handed to the verifier: no header, no
   * piece starting with "token=", or nothing between "token=" and the next '='.
   */
  lemma NoTokenCases(cookies: Option<string>)
    ensures cookies.None? ==> TokenFromCookie(cookies).None?
    ensures cookies.Some? && FindFirst(Split(cookies.value, ';'), TokenPrefix).None?
      ==> TokenFromCookie(cookies).None?
    ensures cookies.Some? && FindFirst(Split(cookies.value, ';'), TokenPrefix).Some? &&
      (var piece := FindFirst(Split(cookies.value, ';'), TokenPrefix).value;
       |piece| == |TokenPrefix| || piece[|TokenPrefix|] == '=')
      ==> TokenFromCookie(cookies).None?
  {
    if cookies.Some? && cookies.value != [] {
      var pieces := Split(cookies.value, ';');
      match FindFirst(pieces, TokenPrefix)
      case None =>
      case Some(piece) =>
        TokenOfPiece(piece);
        var rest := piece[|TokenPrefix|..];
        SplitHead(rest, '=');
    }
  }

  /** A piece with a leading space never matches, because pieces are not trimmed. */
  lemma LeadingSpaceNeverMatches(piece: string)
    requires |piece| > 0 && piece[0] == ' '
    ensures !StartsWith(piece, TokenPrefix)
  {
    assert TokenPrefix[0] == 't';
  }

  /**
   * A header whose token cookie follows "; " yields no token (unless an earlier
   * piece matches): after splitting on ';' the piece starts with a space.
   */
  lemma SpacedTokenIsMissed(a: string, b: string)
    requires ';' !in a && ';' !in b && !StartsWith(a, TokenPrefix)
    ensures TokenFromCookie(Some(a + "; token=" + b)) == None
  {
    var spaced := " token=" + b;
    assert a + "; token=" + b == a + [';'] + spaced;
    assert ';' !in spaced;
    SplitAtFirst(a, spaced, ';');
    SplitNoSep(spaced, ';');
    LeadingSpaceNeverMatches(spaced);
  }

  /** The usual "a=1; token=x" form of a header yields no token. */
  lemma SpacedHeaderHasNoToken(header: string)
    requires header == "a=1; token=x"
    ensures TokenFromCookie(Some(header)) == None
  {
    assert header == "a=1" + "; token=" + "x";
    SpacedTokenIsMissed("a=1", "x");
  }

  /**
   * Only the text between the first and the second '=' of the token piece is
   * the token; whatever follows the second '=' is dropped.
   */
  lemma TokenStopsAtSecondEquals(t: string, more: string, tail: string)
    requires t != [] && '=' !in t && ';' !in t && ';' !in more
    ensures TokenFromCookie(Some(TokenPrefix + t + "=" + more + ";" + tail)) == Some(t)
  {
    var header := TokenPrefix + t + "=" + more + ";" + tail;
    var piece := TokenPrefix + t + "=" + more;
    assert header == piece + [';'] + tail;
    assert ';' !in piece;
    SplitAtFirst(piece, tail, ';');
    assert IsPieceToken(piece, t) by {
      assert piece[..|TokenPrefix + t|] == TokenPrefix + t;
      assert piece[|TokenPrefix| + |t|] == '=';
    }
    assert Split(header, ';')[0] == piece;
    TokenFromCookieComplete(header, t);
  }
}
