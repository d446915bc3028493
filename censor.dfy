/** The chirp validator: the 140-byte length guard and the profanity censor
    that replaces each banned space-separated word with `****`. */
module Censor {
  import opened GoStrings

  /** The longest chirp body accepted, in bytes. */
  const MaxChirpLength: nat := 140

  /** The body decoded from the request, or `None` when the JSON decoder
      failed. */
  datatype Option<T> = None | Some(value: T)

  // The banned words, as the lower-case ASCII bytes of
  // "kerfuffle", "sharbert" and "fornax", and their replacement "****".
  const Kerfuffle: seq<byte> := [107, 101, 114, 102, 117, 102, 102, 108, 101]
  const Sharbert: seq<byte> := [115, 104, 97, 114, 98, 101, 114, 116]
  const Fornax: seq<byte> := [102, 111, 114, 110, 97, 120]
  const Stars: seq<byte> := [42, 42, 42, 42]

  /** A piece is banned when its lower-case form is one of the three words. */
  predicate IsBanned(p: seq<byte>)
  {
    ToLower(p) in {Kerfuffle, Sharbert, Fornax}
  }

  /** Some piece of `ps` is banned. */
  predicate SomeBanned(ps: seq<seq<byte>>)
  {
    exists i :: 0 <= i < |ps| && IsBanned(ps[i])
  }

  /** `p` spells word `w` with any mix of upper- and lower-case letters. */
  predicate CaseVariant(p: seq<byte>, w: seq<byte>)
  {
    |p| == |w| && forall i :: 0 <= i < |p| ==> p[i] == w[i] || p[i] as int + 32 == w[i] as int
  }

  /** What one iteration of the censor loop appends for piece `p`. */
  function CensorPiece(p: seq<byte>): (r: seq<byte>)
    ensures |r| <= |p|
    ensures |r| < |p| <==> IsBanned(p)
    ensures SpaceFree(p) ==> SpaceFree(r)
    ensures !IsBanned(r)
  {
    assert ToLower(Stars) == Stars;
    if IsBanned(p) then Stars else p
  }

  function CensorPieces(ps: seq<seq<byte>>): (r: seq<seq<byte>>)
    ensures |r| == |ps|
    ensures forall i :: 0 <= i < |ps| ==> r[i] == CensorPiece(ps[i])
  {
    if |ps| == 0 then [] else [CensorPiece(ps[0])] + CensorPieces(ps[1..])
  }

  /** The specification of `censorProfane`: split on spaces, censor each
      piece, join with spaces. */
  function Censored(text: seq<byte>): seq<byte>
  {
    Join(CensorPieces(Split(text)))
  }

  /** `censorProfane`: loops over the pieces of the text, appending either
      `****` or the piece itself to `result`, then joins `result`. */
  method CensorProfane(text: seq<byte>) returns (cleaned: seq<byte>)
    ensures cleaned == Censored(text)
  {
    var pieces := Split(text);
    var result: seq<seq<byte>> := [];
    for i := 0 to |pieces|
      invariant |result| == i
      invariant forall k :: 0 <= k < i ==> result[k] == CensorPiece(pieces[k])
    {
      var lower := ToLower(pieces[i]);
      if lower == Kerfuffle || lower == Sharbert || lower == Fornax {
        result := result + [Stars];
      } else {
        result := result + [pieces[i]];
      }
    }
    assert result == CensorPieces(pieces);
    cleaned := Join(result);
  }

  /** The pieces of the censored text line up one for one with the pieces
      of the input: a banned piece became `****`, any other piece is kept
      exactly, case included. */
  lemma PiecesAlign(text: seq<byte>)
    ensures |Split(Censored(text))| == |Split(text)|
    ensures forall i :: 0 <= i < |Split(text)| ==>
      (IsBanned(Split(text)[i]) ==> Split(Censored(text))[i] == Stars) &&
      (!IsBanned(Split(text)[i]) ==> Split(Censored(text))[i] == Split(text)[i])
  {
    var out := CensorPieces(Split(text));
    assert AllSpaceFree(out);
    SplitJoin(out);
  }

  /** Matching ignores case and nothing else: a piece is banned exactly when
      it spells one of the three words in some mix of cases, so `Kerfuffle`
      and `FORNAX` are banned. */
  lemma BannedIffCaseVariant(p: seq<byte>)
    ensures IsBanned(p) <==>
      CaseVariant(p, Kerfuffle) || CaseVariant(p, Sharbert) || CaseVariant(p, Fornax)
  {
    forall w | w == Kerfuffle || w == Sharbert || w == Fornax
      ensures ToLower(p) == w <==> CaseVariant(p, w)
    {
      assert forall i :: 0 <= i < |w| ==> 97 <= w[i] <= 122;
      if CaseVariant(p, w) {
        assert forall i :: 0 <= i < |p| ==> ToLower(p)[i] == w[i];
      }
    }
  }

  /** Only whole pieces are matched: a piece that contains a banned word
      (in any case) together with at least one more byte is not banned, so
      `kerfuffle!` and `sharberts` are kept. */
  lemma WholePieceOnly(p: seq<byte>, w: seq<byte>, k: nat)
    requires w == Kerfuffle || w == Sharbert || w == Fornax
    requires k + |w| <= |p| && |w| < |p|
    requires ToLower(p)[k..k + |w|] == w
    ensures !IsBanned(p)
  {
    var l := ToLower(p);
    assert l[k] == w[0] && l[k + 1] == w[1] by {
      assert l[k..k + |w|][0] == l[k] && l[k..k + |w|][1] == l[k + 1];
    }
    NoWordStartsInsideAnother(l, w, k);
  }

  /** No banned word starts at any position of a longer banned word with the
      same first two bytes. */
  lemma NoWordStartsInsideAnother(l: seq<byte>, w: seq<byte>, k: nat)
    requires w == Kerfuffle || w == Sharbert || w == Fornax
    requires k + |w| <= |l| && |w| < |l|
    requires l[k] == w[0] && l[k + 1] == w[1]
    ensures l != Kerfuffle && l != Sharbert && l != Fornax
  {
  }

  /** Text with no banned piece comes back byte for byte, including the
      empty text and text with leading, trailing or repeated spaces; and
      only such text does. */
  lemma UnchangedIffClean(text: seq<byte>)
    ensures Censored(text) == text <==> !SomeBanned(Split(text))
  {
    var ps := Split(text);
    assert Join(ps) == text;
    CensorShortens(ps);
    if !SomeBanned(ps) {
      assert CensorPieces(ps) == ps;
    }
  }

  /** Censoring twice is censoring once: `****` is not banned, and every
      piece that survived the first pass was not banned either. */
  lemma Idempotent(text: seq<byte>)
    ensures Censored(Censored(text)) == Censored(text)
  {
    PiecesAlign(text);
    UnchangedIffClean(Censored(text));
  }

  /** Censoring never lengthens the text, and shortens it exactly when some
      piece was banned: each banned piece has at least six bytes and becomes
      four. */
  lemma NeverLonger(text: seq<byte>)
    ensures |Censored(text)| <= |text|
    ensures |Censored(text)| < |text| <==> SomeBanned(Split(text))
  {
    var ps := Split(text);
    assert Join(ps) == text;
    assert Censored(text) == Join(CensorPieces(ps));
    CensorShortens(ps);
  }

  /** Censoring a list of pieces shortens their join exactly when one of
      them is banned. */
  lemma CensorShortens(ps: seq<seq<byte>>)
    ensures |Join(CensorPieces(ps))| <= |Join(ps)|
    ensures |Join(CensorPieces(ps))| < |Join(ps)| <==> SomeBanned(ps)
  {
    var out := CensorPieces(ps);
    JoinShorter(ps, out);
    forall i | 0 <= i < |ps| ensures |out[i]| < |ps[i]| <==> IsBanned(ps[i]) {
    }
  }

  /** The response `handleValidation` writes: an error message or the
      cleaned body, with its HTTP status. */
  datatype Outcome =
    | Rejected(status: int, error: string)
    | Cleaned(status: int, cleanedBody: seq<byte>)

  /** `handleValidation`: a decoding failure answers 500, a body longer than
      140 bytes answers 400 "Chirp is too long" without being censored, and
      any other body answers 200 with its censored form. */
  method HandleValidation(decoded: Option<seq<byte>>) returns (o: Outcome)
    ensures decoded.None? ==> o == Rejected(500, "Something went wrong")
    ensures decoded.Some? && |decoded.value| > MaxChirpLength ==>
      o == Rejected(400, "Chirp is too long")
    ensures decoded.Some? && |decoded.value| <= MaxChirpLength ==>
      o.Cleaned? && o.status == 200 && o.cleanedBody == Censored(decoded.value) &&
      |o.cleanedBody| <= MaxChirpLength
  {
    if decoded.None? {
      return Rejected(500, "Something went wrong");
    }
    var body := decoded.value;
    if |body| > MaxChirpLength {
      return Rejected(400, "Chirp is too long");
    }
    var cleaned := CensorProfane(body);
    NeverLonger(body);
    return Cleaned(200, cleaned);
  }
}
