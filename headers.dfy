/** Column-name canonicalisation: `columns.str.lower().str.replace(" ", "_").str.replace("-", "_")`
    in cleanup.py, and the same preceded by `.str.strip()` in cleanup2.py. */
module Headers {
  import opened Text

  /** A header as both scripts leave it: no upper-case letter, no space, no hyphen. */
  predicate IsCanonical(h: string) {
    forall i :: 0 <= i < |h| ==> !IsUpper(h[i]) && h[i] != ' ' && h[i] != '-'
  }

  /** Lower-case, then spaces to `_`, then hyphens to `_` (three passes over the header). */
  function CanonicalHeader(h: string): (r: string)
    ensures |r| == |h| && IsCanonical(r)
    ensures forall i :: 0 <= i < |h| ==> r[i] == if h[i] == ' ' || h[i] == '-' then '_' else Lower(h[i])
  {
    ReplaceChar(ReplaceChar(LowerString(h), ' ', '_'), '-', '_')
  }

  /** A canonical header is left as it is. */
  lemma CanonicalOfCanonical(h: string)
    requires IsCanonical(h)
    ensures CanonicalHeader(h) == h
  {
    var r := CanonicalHeader(h);
    forall i | 0 <= i < |h| ensures r[i] == h[i] {
      assert !IsUpper(h[i]);
    }
  }

  /** Canonicalising twice is canonicalising once. */
  lemma CanonicalHeaderIdempotent(h: string)
    ensures CanonicalHeader(CanonicalHeader(h)) == CanonicalHeader(h)
  {
    CanonicalOfCanonical(CanonicalHeader(h));
  }

  /** Without trimming, a leading space becomes an underscore. */
  lemma UntrimmedLeadingSpace()
    ensures CanonicalHeader(" Year") == "_year"
  {
    var r := CanonicalHeader(" Year");
    assert r[0] == '_' && r[1] == 'y' && r[2] == 'e' && r[3] == 'a' && r[4] == 'r';
  }

  /** Every header of a frame, canonicalised. */
  function CanonicalHeaders(cols: seq<string>): (r: seq<string>)
    ensures |r| == |cols| && forall i :: 0 <= i < |cols| ==> r[i] == CanonicalHeader(cols[i])
  {
    seq(|cols|, i requires 0 <= i < |cols| => CanonicalHeader(cols[i]))
  }

  /** `str.strip()` first, then canonicalisation: the header is canonical and has no whitespace
      at either end, and nothing but the stripped whitespace is lost. */
  function TrimmedCanonicalHeader(h: string): (r: string)
    ensures IsCanonical(r) && |r| == |Strip(h)| && |r| <= |h|
  {
    StripShortens(h);
    CanonicalHeader(Strip(h))
  }

  /** A trimmed canonical header neither starts nor ends with whitespace. */
  lemma TrimmedHasNoEdgeSpace(h: string)
    ensures var r := TrimmedCanonicalHeader(h);
      r == [] || (!IsSpace(r[0]) && !IsSpace(r[|r| - 1]))
  {
    var s := Strip(h);
    if s != [] {
      CanonicalCharNotSpace(s[0]);
      CanonicalCharNotSpace(s[|s| - 1]);
    }
  }

  /** Canonicalising a character that is not whitespace never yields whitespace. */
  lemma CanonicalCharNotSpace(c: char)
    requires !IsSpace(c)
    ensures !IsSpace(if c == ' ' || c == '-' then '_' else Lower(c))
  {
  }

  /** Surrounding whitespace disappears instead of turning into underscores. */
  lemma TrimmedIgnoresPadding(h: string)
    ensures TrimmedCanonicalHeader([' '] + h + [' ']) == TrimmedCanonicalHeader(h)
  {
    StripPadded(h);
  }

  /** Trimmed canonicalisation is idempotent. */
  lemma TrimmedCanonicalIdempotent(h: string)
    ensures TrimmedCanonicalHeader(TrimmedCanonicalHeader(h)) == TrimmedCanonicalHeader(h)
  {
    var r := TrimmedCanonicalHeader(h);
    TrimmedHasNoEdgeSpace(h);
    assert Strip(r) == r;
    CanonicalOfCanonical(r);
  }

  /** With trimming, the padded header of `UntrimmedLeadingSpace` loses its padding. */
  lemma TrimmedLeadingSpace(w: string)
    requires w == "Year"
    ensures TrimmedCanonicalHeader([' '] + w + [' ']) == "year"
  {
    TrimmedIgnoresPadding(w);
    TrimmedPlainYear(w);
  }

  /** An unpadded header needs only canonicalisation. */
  lemma TrimmedPlainYear(w: string)
    requires w == "Year"
    ensures TrimmedCanonicalHeader(w) == "year"
  {
    assert !IsSpace(w[0]) && !IsSpace(w[3]);
    assert Strip(w) == w;
    var r := CanonicalHeader(w);
    assert r[0] == 'y' && r[1] == 'e' && r[2] == 'a' && r[3] == 'r';
  }

  /** Every header of a frame, trimmed and canonicalised. */
  function TrimmedCanonicalHeaders(cols: seq<string>): (r: seq<string>)
    ensures |r| == |cols| && forall i :: 0 <= i < |cols| ==> r[i] == TrimmedCanonicalHeader(cols[i])
  {
    seq(|cols|, i requires 0 <= i < |cols| => TrimmedCanonicalHeader(cols[i]))
  }
}
