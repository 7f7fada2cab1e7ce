/** The external libraries the server leans on, as uninterpreted functions:
    bcrypt's `hash`/`compare`, `jsonwebtoken`'s `sign`/`verify`, and Joi's
    e-mail grammar. Randomness (the bcrypt salt) is an explicit argument. */
module Crypto {
  import opened Common

  type Id = nat

  datatype Oracles = Oracles(
    hash: (string, nat) -> string,      // bcrypt.hash(plain, cost 12) with the given salt
    compare: (string, string) -> bool,  // bcrypt.compare(plain, stored)
    sign: Id -> string,                 // jwt.sign({ id }, secret, { expiresIn: '7d' })
    verify: string -> Option<Id>,       // jwt.verify(token, secret).id, None when it throws
    joiEmail: string -> bool            // Joi.string().email({ tlds: { allow: false } })
  )

  /** The laws the libraries are relied on for: a password matches every hash
      made from it, a hash is never the password itself (a bcrypt hash is a
      `$2a$12$...` string, not a fixed point), a signed token is a non-empty
      string that verifies to the id it was signed for. */
  ghost predicate Lawful(o: Oracles) {
    && (forall p: string, salt: nat :: o.compare(p, o.hash(p, salt)))
    && (forall p: string, salt: nat :: o.hash(p, salt) != p)
    && (forall id: Id :: o.sign(id) != "" && o.verify(o.sign(id)) == Some(id))
  }
}
