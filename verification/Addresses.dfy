/**
  Strict address spelling (EIP-55): all-lowercase, or mixed case with a valid checksum. The
  hash is a parameter: `hash(hex, i)` is the i-th hex digit of the hash of `hex`.
 */
module Addresses {
  import opened Strings

  type Hash = (string, nat) -> nat

  /** `/^0x[0-9a-fA-F]{40}$/` */
  predicate IsHexAddress(v: string) {
    |v| == 42 && v[..2] == "0x" && forall i :: 2 <= i < 42 ==> IsHexDigit(v[i])
  }

  function Checksum(v: string, hash: Hash): (r: string)
    requires IsHexAddress(v)
    ensures |r| == 42
  {
    var hex := Lower(v[2..]);
    "0x" + seq(40, i requires 0 <= i < 40 => if hash(hex, i) >= 8 then UpperChar(hex[i]) else hex[i])
  }

  /** `toChecksumAddress`: 40 steps, each appending one digit. */
  method ToChecksumAddress(address: string, hash: Hash) returns (out: string)
    requires IsHexAddress(address)
    ensures out == Checksum(address, hash)
    ensures IsHexAddress(out) && Lower(out) == Lower(address)
    ensures forall i :: 0 <= i < 40 ==> IsSpelledByHash(out, i, hash)
  {
    ChecksumLaws(address, address, hash);
    ChecksumDigits(address, hash);
    IsChecksumIff(Checksum(address, hash), hash);
    var hex := Lower(address[2..]);
    out := "0x";
    for i := 0 to 40
      invariant |out| == 2 + i && out == Checksum(address, hash)[..2 + i]
    {
      out := out + [if hash(hex, i) >= 8 then UpperChar(hex[i]) else hex[i]];
    }
  }

  predicate IsStrictAddress(v: string, hash: Hash) {
    if !IsHexAddress(v) then false
    else if Lower(v) == v then true
    else Checksum(v, hash) == v
  }

  /** `addressSchema`: the pattern, then the refinement. */
  predicate SchemaAccepts(v: string, hash: Hash) {
    IsHexAddress(v) && (!IsHexAddress(v) || IsStrictAddress(v, hash))
  }

  lemma LowerOfHex(v: string)
    requires IsHexAddress(v)
    ensures IsHexAddress(Lower(v)) && Lower(v) == "0x" + Lower(v[2..]) && Lower(v)[2..] == Lower(v[2..])
  {
    assert v == "0x" + v[2..];
    assert v[0] == v[..2][0] && v[1] == v[..2][1];
    assert Lower(v)[..2] == "0x";
  }

  lemma HexCase(c: char)
    requires IsHexDigit(c)
    ensures var l := LowerChar(c);
            && IsHexDigit(l) && LowerChar(l) == l
            && IsHexDigit(UpperChar(l)) && LowerChar(UpperChar(l)) == l
            && (UpperChar(l) == l <==> !IsLowerLetter(l))
  {
    assert IsUpperLetter(c) ==> (LowerChar(c) as int) == (c as int) + 32;
    assert forall l: char :: IsLowerLetter(l) ==> (UpperChar(l) as int) == (l as int) - 32;
  }

  lemma ChecksumDigits(v: string, hash: Hash)
    requires IsHexAddress(v)
    ensures IsHexAddress(Checksum(v, hash)) && Lower(Checksum(v, hash)) == Lower(v)
  {
    LowerOfHex(v);
    var c := Checksum(v, hash);
    assert c[..2] == "0x" && Lower(v)[0] == '0' && Lower(v)[1] == 'x';
    forall i | 2 <= i < 42 ensures IsHexDigit(c[i]) && LowerChar(c[i]) == Lower(v)[i] {
      assert v[2..][i - 2] == v[i];
      assert Lower(v[2..])[i - 2] == LowerChar(v[i]);
      HexCase(v[i]);
    }
  }

  /** The checksum form depends only on the lower-cased address, keeps it, and is its own checksum form. */
  lemma ChecksumLaws(v: string, w: string, hash: Hash)
    requires IsHexAddress(v) && IsHexAddress(w) && Lower(v) == Lower(w)
    ensures Checksum(v, hash) == Checksum(w, hash)
    ensures Lower(Checksum(v, hash)) == Lower(v)
    ensures Checksum(Checksum(v, hash), hash) == Checksum(v, hash)
  {
    LowerOfHex(v);
    LowerOfHex(w);
    ChecksumDigits(v, hash);
    LowerOfHex(Checksum(v, hash));
  }

  /** The accepted spellings of an address are exactly its lower-case and its checksum form. */
  lemma AcceptedSpellings(v: string, w: string, hash: Hash)
    requires IsHexAddress(v) && IsHexAddress(w) && Lower(w) == Lower(v)
    ensures SchemaAccepts(w, hash) <==> w == Lower(v) || w == Checksum(v, hash)
  {
    ChecksumLaws(v, w, hash);
    LowerIdempotent(v);
  }

  /** A change of letter cases of a mixed-case accepted address is accepted only when it lower-cases everything. */
  lemma CaseTypoIsRefused(v: string, w: string, hash: Hash)
    requires IsHexAddress(v) && IsHexAddress(w) && Lower(w) == Lower(v) && w != v
    ensures IsStrictAddress(v, hash) && v != Lower(v) ==> (IsStrictAddress(w, hash) <==> w == Lower(v))
  {
    AcceptedSpellings(v, w, hash);
    AcceptedSpellings(v, v, hash);
  }

  /** Digit `i` of the body is spelled as EIP-55 asks: capital iff the hash says so, if it is a letter. */
  predicate IsSpelledByHash(w: string, i: nat, hash: Hash)
    requires |w| == 42 && i < 40
  {
    !IsDigit(w[i + 2]) ==> (IsUpperLetter(w[i + 2]) <==> hash(Lower(w[2..]), i) >= 8)
  }

  /**
    Digit by digit: an address is accepted iff it has no capital letter in its body, or each
    letter of the body is a capital exactly when the hash asks for one there.
   */
  lemma AcceptedIff(w: string, hash: Hash)
    ensures SchemaAccepts(w, hash) <==>
            && |w| == 42 && w[0] == '0' && w[1] == 'x'
            && (forall i :: 2 <= i < 42 ==> '0' <= w[i] <= '9' || 'a' <= w[i] <= 'f' || 'A' <= w[i] <= 'F')
            && (|| (forall i :: 2 <= i < 42 ==> !IsUpperLetter(w[i]))
                || (forall i :: 0 <= i < 40 ==> IsSpelledByHash(w, i, hash)))
  {
    if |w| == 42 { assert w[..2] == "0x" <==> w[0] == '0' && w[1] == 'x'; }
    if IsHexAddress(w) {
      IsLowerIff(w);
      IsChecksumIff(w, hash);
    }
  }

  lemma IsLowerIff(w: string)
    requires IsHexAddress(w)
    ensures Lower(w) == w <==> forall i :: 2 <= i < 42 ==> !IsUpperLetter(w[i])
  {
    LowerOfHex(w);
    forall i | 2 <= i < 42 ensures Lower(w)[i] == w[i] <==> !IsUpperLetter(w[i]) { CaseMoves(w[i]); }
    assert w[0] == w[..2][0] == '0' && w[1] == w[..2][1] == 'x';
    if forall i :: 2 <= i < 42 ==> !IsUpperLetter(w[i]) {
      assert forall i :: 0 <= i < 42 ==> Lower(w)[i] == w[i];
    }
  }

  lemma CaseMoves(c: char)
    ensures IsUpperLetter(c) ==> LowerChar(c) != c && IsLowerLetter(LowerChar(c)) && UpperChar(LowerChar(c)) == c
    ensures IsLowerLetter(c) ==> UpperChar(c) != c && IsUpperLetter(UpperChar(c)) && LowerChar(c) == c
  {
    assert IsUpperLetter(c) ==> (LowerChar(c) as int) == (c as int) + 32;
    assert IsLowerLetter(c) ==> (UpperChar(c) as int) == (c as int) - 32;
  }

  lemma IsChecksumIff(w: string, hash: Hash)
    requires IsHexAddress(w)
    ensures Checksum(w, hash) == w <==> forall i :: 0 <= i < 40 ==> IsSpelledByHash(w, i, hash)
  {
    var c, hex := Checksum(w, hash), Lower(w[2..]);
    assert c[..2] == "0x" == w[..2];
    forall i | 0 <= i < 40 ensures c[i + 2] == w[i + 2] <==> IsSpelledByHash(w, i, hash) {
      assert hex[i] == LowerChar(w[i + 2]);
      assert c[i + 2] == if hash(hex, i) >= 8 then UpperChar(hex[i]) else hex[i];
      CaseMoves(w[i + 2]);
    }
    if forall i :: 0 <= i < 40 ==> IsSpelledByHash(w, i, hash) {
      forall k | 0 <= k < 42 ensures c[k] == w[k] {
        if k >= 2 { assert IsSpelledByHash(w, k - 2, hash); } else { assert c[..2][k] == w[..2][k]; }
      }
      assert c == w;
    }
  }

  /** The spelling with every letter of the body upper-cased. */
  function UpperBody(v: string): string
    requires IsHexAddress(v)
  {
    "0x" + seq(40, i requires 0 <= i < 40 => UpperChar(LowerChar(v[i + 2])))
  }

  /**
    The comment in the source says an all-uppercase body is refused. It is accepted exactly
    when the hash asks for upper case at every letter, or there is no letter at all.
   */
  lemma UpperBodyAcceptedIff(v: string, hash: Hash)
    requires IsHexAddress(v)
    ensures var hex := Lower(v[2..]);
            SchemaAccepts(UpperBody(v), hash) <==>
            || (forall i :: 0 <= i < 40 && IsLowerLetter(hex[i]) ==> hash(hex, i) >= 8)
            || (forall i :: 0 <= i < 40 ==> !IsLowerLetter(hex[i]))
  {
    UpperBodyIsSpelling(v);
    UpperBodyIsChecksumIff(v, hash);
    UpperBodyIsLowerIff(v);
    AcceptedSpellings(v, UpperBody(v), hash);
  }

  /** One of the all-caps examples of EIP-55, which lists it as a valid checksum address. */
  const CAPS_BODY := "52908400098527886E0F7030069857D2E4169EE7"
  const ALL_CAPS := "0x" + CAPS_BODY

  /** Under every hash that asks for upper case at the letters of that address it passes, although not lower-case. */
  lemma UpperBodyAccepted(hash: Hash)
    requires forall i :: 0 <= i < 40 && IsUpperLetter(CAPS_BODY[i]) ==> hash(Lower(CAPS_BODY), i) >= 8
    ensures SchemaAccepts(ALL_CAPS, hash) && UpperBody(ALL_CAPS) == ALL_CAPS && ALL_CAPS != Lower(ALL_CAPS)
  {
    BodyIsHex();
    AllCapsIsHex();
    NoLowerStays(ALL_CAPS);
    CapitalIsLowered(ALL_CAPS, 19);
    assert ALL_CAPS[2..] == CAPS_BODY;
    var hex := Lower(CAPS_BODY);
    forall i | 0 <= i < 40 && IsLowerLetter(hex[i]) ensures hash(hex, i) >= 8 {
      CapitalAt(CAPS_BODY[i]);
    }
    UpperBodyAcceptedIff(ALL_CAPS, hash);
  }

  lemma CapitalAt(c: char)
    requires IsHexDigit(c) && !IsLowerLetter(c) && IsLowerLetter(LowerChar(c))
    ensures IsUpperLetter(c)
  {
  }

  lemma AllCapsIsHex()
    ensures IsHexAddress(ALL_CAPS) && ALL_CAPS[19] == 'E'
    ensures forall i :: 2 <= i < 42 ==> !IsLowerLetter(ALL_CAPS[i])
  {
    BodyIsHex();
    assert ALL_CAPS[2..] == CAPS_BODY && ALL_CAPS[..2] == "0x";
    assert forall i :: 2 <= i < 42 ==> ALL_CAPS[i] == CAPS_BODY[i - 2];
  }

  lemma BodyIsHex()
    ensures |CAPS_BODY| == 40 && CAPS_BODY[17] == 'E'
    ensures forall i :: 0 <= i < 40 ==> IsHexDigit(CAPS_BODY[i]) && !IsLowerLetter(CAPS_BODY[i])
  {
  }

  lemma CapitalIsLowered(v: string, i: nat)
    requires i < |v| && IsUpperLetter(v[i])
    ensures v != Lower(v)
  {
    assert Lower(v)[i] == LowerChar(v[i]);
  }

  lemma NoLowerStays(v: string)
    requires IsHexAddress(v) && forall i :: 2 <= i < 42 ==> !IsLowerLetter(v[i])
    ensures UpperBody(v) == v
  {
    forall i | 2 <= i < 42 ensures UpperBody(v)[i] == v[i] {
      HexCase(v[i]);
      assert UpperChar(LowerChar(v[i])) == v[i];
    }
    assert v == v[..2] + v[2..];
  }

  /** A body without letters is its own upper-case form and passes under every hash. */
  lemma LetterlessAccepted(v: string, hash: Hash)
    requires IsHexAddress(v) && forall i :: 2 <= i < 42 ==> IsDigit(v[i])
    ensures UpperBody(v) == v && SchemaAccepts(v, hash)
  {
    NoLowerStays(v);
    assert Lower(v[2..]) == v[2..];
    UpperBodyAcceptedIff(v, hash);
  }

  lemma UpperBodyIsSpelling(v: string)
    requires IsHexAddress(v)
    ensures IsHexAddress(UpperBody(v)) && Lower(UpperBody(v)) == Lower(v)
  {
    var u := UpperBody(v);
    LowerOfHex(v);
    assert u[..2] == "0x" && Lower(v)[0] == '0' && Lower(v)[1] == 'x';
    forall i | 2 <= i < 42 ensures IsHexDigit(u[i]) && LowerChar(u[i]) == Lower(v)[i] {
      assert u[i] == UpperChar(LowerChar(v[i]));
      HexCase(v[i]);
    }
  }

  lemma UpperBodyIsChecksumIff(v: string, hash: Hash)
    requires IsHexAddress(v)
    ensures var hex := Lower(v[2..]);
            UpperBody(v) == Checksum(v, hash) <==>
            forall i :: 0 <= i < 40 && IsLowerLetter(hex[i]) ==> hash(hex, i) >= 8
  {
    var hex, u, c := Lower(v[2..]), UpperBody(v), Checksum(v, hash);
    forall k | 2 <= k < 42
      ensures u[k] == c[k] <==> (IsLowerLetter(hex[k - 2]) ==> hash(hex, k - 2) >= 8)
    {
      HexCase(v[k]);
      assert hex[k - 2] == LowerChar(v[k]) && u[k] == UpperChar(hex[k - 2]);
      assert c[k] == if hash(hex, k - 2) >= 8 then UpperChar(hex[k - 2]) else hex[k - 2];
    }
    if u == c {
      forall i | 0 <= i < 40 && IsLowerLetter(hex[i]) ensures hash(hex, i) >= 8 { assert u[i + 2] == c[i + 2]; }
    }
    if forall k :: 2 <= k < 42 ==> u[k] == c[k] { assert u == c; }
  }

  lemma UpperBodyIsLowerIff(v: string)
    requires IsHexAddress(v)
    ensures UpperBody(v) == Lower(v) <==> forall i :: 0 <= i < 40 ==> !IsLowerLetter(Lower(v[2..])[i])
  {
    var hex, u, l := Lower(v[2..]), UpperBody(v), Lower(v);
    LowerOfHex(v);
    forall k | 2 <= k < 42 ensures u[k] == l[k] <==> !IsLowerLetter(hex[k - 2]) {
      HexCase(v[k]);
      assert hex[k - 2] == LowerChar(v[k]) && u[k] == UpperChar(hex[k - 2]);
    }
    if u == l {
      forall i | 0 <= i < 40 ensures !IsLowerLetter(hex[i]) { assert u[i + 2] == l[i + 2]; }
    }
    if forall k :: 2 <= k < 42 ==> u[k] == l[k] { assert u == l; }
  }
}
