/**
  The part of password hashing that the store performs itself: bcrypt reads
  at most 72 bytes, so the UTF-8 bytes of the password are cut to 72 before
  they are handed to the hasher.  The hasher is a parameter.
 */
module Password {

  import opened Schema

  newtype byte = x: int | 0 <= x < 256

  /** The longest input bcrypt accepts, in bytes. */
  const BcryptMaxBytes: nat := 72

  /** The bytes handed to bcrypt: the password, cut to its first 72 bytes. */
  function BcryptInput(password: seq<byte>): (r: seq<byte>)
    ensures r <= password
    ensures |r| == Min(|password|, BcryptMaxBytes)
    ensures r == password <==> |password| <= BcryptMaxBytes
  {
    if |password| > BcryptMaxBytes then password[..BcryptMaxBytes] else password
  }

  /** The stored credential: the hasher applied to the truncated bytes. */
  function GetPasswordHash(password: seq<byte>, bcrypt: seq<byte> -> string): (h: string)
    ensures |password| <= BcryptMaxBytes ==> h == bcrypt(password)
    ensures |password| > BcryptMaxBytes ==> h == bcrypt(password[..BcryptMaxBytes])
  {
    bcrypt(BcryptInput(password))
  }

  /**
    Two passwords reach the hasher as the same bytes exactly when they are
    equal or share a first 72 bytes; bytes past the 72nd never matter.
   */
  lemma SameBcryptInput(p: seq<byte>, q: seq<byte>)
    ensures BcryptInput(p) == BcryptInput(q) <==>
              p == q ||
              (|p| >= BcryptMaxBytes && |q| >= BcryptMaxBytes &&
               p[..BcryptMaxBytes] == q[..BcryptMaxBytes])
  {
  }

  /** Hence, under one fixed salt (the `bcrypt` parameter), two long passwords sharing their first 72 bytes hash alike. */
  lemma HashIgnoresTail(p: seq<byte>, q: seq<byte>, bcrypt: seq<byte> -> string)
    requires |p| >= BcryptMaxBytes && |q| >= BcryptMaxBytes
    requires p[..BcryptMaxBytes] == q[..BcryptMaxBytes]
    ensures GetPasswordHash(p, bcrypt) == GetPasswordHash(q, bcrypt)
  {
    SameBcryptInput(p, q);
  }
}
