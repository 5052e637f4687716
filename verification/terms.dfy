/**
 The normalisation of user-supplied Human Phenotype Ontology (HPO) terms done by
 the `query_phenomizer` command before it queries the Phenomizer service.

 A term is kept as given when Python's `term.split(':')` yields at least two parts,
 and is otherwise rewritten to `':'.join(['HP', term])`. `Split` and `Join` below
 model those two string operations for a one-character separator, so that the
 test the command performs on the number of parts can be related to the plain
 fact "the term contains a colon".
 */
module Terms {

  /** The separator between the ontology prefix and the identifier. */
  const Colon: char := ':'

  /** The ontology prefix given to bare identifiers. */
  const Prefix: string := "HP"

  /** Python's `s.split(sep)` for a one-character separator: the pieces of `s`
      between occurrences of `sep`, empty pieces included. */
  function Split(s: string, sep: char): (parts: seq<string>)
    ensures |parts| == multiset(s)[sep] + 1
    ensures forall k :: 0 <= k < |parts| ==> sep !in parts[k]
    decreases |s|
  {
    if |s| == 0 then [""]
    else
      var rest := Split(s[1..], sep);
      assert s == [s[0]] + s[1..];
      if s[0] == sep then [""] + rest
      else [[s[0]] + rest[0]] + rest[1..]
  }

  /** Python's `sep.join(parts)` for a one-character separator. */
  function Join(sep: char, parts: seq<string>): string
    requires |parts| >= 1
    decreases |parts|
  {
    if |parts| == 1 then parts[0] else parts[0] + [sep] + Join(sep, parts[1..])
  }

  /** Joining the pieces of a split restores the original string. */
  lemma {:induction false} JoinSplit(s: string, sep: char)
    ensures Join(sep, Split(s, sep)) == s
    decreases |s|
  {
    if |s| > 0 {
      var rest := Split(s[1..], sep);
      JoinSplit(s[1..], sep);
      if s[0] == sep {
        assert ([""] + rest)[1..] == rest;
      } else {
        JoinExtendFirst(sep, s[0], rest);
        assert s == [s[0]] + s[1..];
      }
    }
  }

  /** Prepending a character to the first piece prepends it to the joined string. */
  lemma JoinExtendFirst(sep: char, c: char, parts: seq<string>)
    requires |parts| >= 1
    ensures Join(sep, [[c] + parts[0]] + parts[1..]) == [c] + Join(sep, parts)
  {
    var extended := [[c] + parts[0]] + parts[1..];
    assert extended[1..] == parts[1..];
  }

  /** A term counts as qualified when it carries a colon anywhere; the lengths of
      the pieces around it are not examined. */
  predicate Qualified(term: string) {
    Colon in term
  }

  /** The rewrite applied to one term (cli.py lines 50-52). */
  function NormaliseTerm(term: string): (hpo: string)
    ensures !Qualified(term) ==> hpo == Prefix + [Colon] + term
    ensures Qualified(term) ==> hpo == term
    ensures Qualified(hpo)
  {
    var parts := Split(term, Colon);
    assert Colon in term <==> multiset(term)[Colon] > 0;
    if |parts| < 2 then
      var joined := Join(Colon, [Prefix, term]);
      assert [Prefix, term][1..] == [term];
      assert Join(Colon, [term]) == term;
      assert joined == Prefix + [Colon] + term;
      assert joined[2] == Colon;
      joined
    else term
  }

  /** The list of normalised terms built by the loop of cli.py lines 48-52:
      one output per input, in input order. */
  function Normalise(terms: seq<string>): (hpo: seq<string>)
    ensures |hpo| == |terms|
    ensures forall i :: 0 <= i < |terms| ==> hpo[i] == NormaliseTerm(terms[i])
    ensures forall i :: 0 <= i < |hpo| ==> Qualified(hpo[i])
  {
    if |terms| == 0 then [] else [NormaliseTerm(terms[0])] + Normalise(terms[1..])
  }

  /** Normalising an already normalised list changes nothing. */
  lemma NormaliseIdempotent(terms: seq<string>)
    ensures Normalise(Normalise(terms)) == Normalise(terms)
  {
  }

  /** A list whose terms all carry a colon is passed on unchanged. */
  lemma NormaliseKeepsQualified(terms: seq<string>)
    requires forall i :: 0 <= i < |terms| ==> Qualified(terms[i])
    ensures Normalise(terms) == terms
  {
  }

  /** Normalisation works term by term, so it distributes over concatenation. */
  lemma NormaliseAppend(a: seq<string>, b: seq<string>)
    ensures Normalise(a + b) == Normalise(a) + Normalise(b)
  {
    var whole, parts := Normalise(a + b), Normalise(a) + Normalise(b);
    forall i | 0 <= i < |whole|
      ensures whole[i] == parts[i]
    {
      if i < |a| {
        assert (a + b)[i] == a[i];
      } else {
        assert (a + b)[i] == b[i - |a|];
      }
    }
  }

  /** A bare identifier and its prefixed form normalise to the same term, so the
      list sent to the service may hold the same term twice. */
  lemma BareAndPrefixedCoincide(bare: string)
    requires !Qualified(bare)
    ensures NormaliseTerm(bare) == NormaliseTerm(Prefix + [Colon] + bare)
  {
    assert (Prefix + [Colon] + bare)[2] == Colon;
  }
}
