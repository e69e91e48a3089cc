/** `hashPassword` and `comparePassword` live in a helper (bcrypt) that is not part of this model.
    They are kept abstract: a `Hasher` is the pair of functions, and the properties the controllers
    rely on are stated as predicates that lemmas take as hypotheses. The per-call random salt of
    bcrypt is an explicit argument. */
module Password {

  type Salt = nat

  /** bcrypt's output string, salt and cost embedded. */
  type Digest = string

  datatype Hasher = Hasher(hash: (string, Salt) -> Digest, compare: (string, Digest) -> bool)

  /** `comparePassword(p, hashPassword(p))` holds whatever salt the hash drew. */
  ghost predicate Sound(h: Hasher)
  {
    forall p, s :: h.compare(p, h.hash(p, s))
  }

  /** A digest accepts no password other than the one it was made from (no collisions). bcrypt
      itself reads only the first 72 bytes of a password, so for it this holds only among
      passwords that differ within those bytes. */
  ghost predicate Binding(h: Hasher)
  {
    forall p, q, s :: h.compare(p, h.hash(q, s)) ==> p == q
  }

  /** The two assumptions are consistent: lemmas that take them as hypotheses are not vacuous. */
  lemma SoundBindingHasherExists()
    ensures exists h :: Sound(h) && Binding(h)
  {
    var h := Hasher((p, s) => p, (p, d) => p == d);
    assert Sound(h) && Binding(h);
  }
}
