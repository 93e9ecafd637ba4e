/**
 * `generateRandomPassword`: twelve characters, each picked from a fixed
 * 62-character alphabet. The source draws each position with
 * `Math.floor(Math.random() * 62)`; here those draws are an input.
 */
module RandomPassword {

  const Length: nat := 12
  /** The source's alphabet literal, written as its three runs. */
  const Characters: string := "abcdefghijklmnopqrstuvwxyz" + "ABCDEFGHIJKLMNOPQRSTUVWXYZ" + "0123456789"

  predicate IsAlphanumeric(c: char)
  {
    ('a' <= c <= 'z') || ('A' <= c <= 'Z') || ('0' <= c <= '9')
  }

  /** Each draw is a valid position in the alphabet, and there is one per character. */
  predicate ValidDraws(draws: seq<nat>)
  {
    |draws| == Length && forall i :: 0 <= i < |draws| ==> draws[i] < |Characters|
  }

  /** Builds the password one character per draw, as the source's loop does. */
  method GenerateRandomPassword(draws: seq<nat>) returns (password: string)
    requires ValidDraws(draws)
    ensures |password| == Length
    ensures forall i :: 0 <= i < Length ==> password[i] == Characters[draws[i]]
    ensures password == PasswordFor(draws)
  {
    password := "";
    var i := 0;
    while i < Length
      invariant 0 <= i <= Length
      invariant |password| == i
      invariant forall j :: 0 <= j < i ==> password[j] == Characters[draws[j]]
      invariant password == PasswordFor(draws[..i])
    {
      assert draws[..i + 1][..i] == draws[..i];
      password := password + [Characters[draws[i]]];
      i := i + 1;
    }
    assert draws[..i] == draws;
  }

  /** The alphabet is the lower-case letters, then the upper-case letters, then the digits, each in code point order. */
  lemma CharacterAt(i: nat)
    requires i < |Characters|
    ensures Characters[i] == if i < 26 then (i + 'a' as int) as char
                             else if i < 52 then (i - 26 + 'A' as int) as char
                             else (i - 52 + '0' as int) as char
  {
  }

  /** The alphabet is exactly the ASCII letters and digits. */
  lemma CharactersAreAlphanumeric()
    ensures |Characters| == 62
    ensures forall i :: 0 <= i < |Characters| ==> IsAlphanumeric(Characters[i])
    ensures forall c :: IsAlphanumeric(c) ==> c in Characters
  {
    forall i | 0 <= i < |Characters| ensures IsAlphanumeric(Characters[i]) {
      CharacterAt(i);
    }
    forall c | IsAlphanumeric(c) ensures c in Characters {
      assert Characters[IndexOf(c)] == c;
    }
  }

  /** Where an alphanumeric character sits in the alphabet. */
  function IndexOf(c: char): (i: nat)
    requires IsAlphanumeric(c)
    ensures i < |Characters| && Characters[i] == c
  {
    var i := if 'a' <= c <= 'z' then c as int - 'a' as int
      else if 'A' <= c <= 'Z' then c as int - 'A' as int + 26
      else c as int - '0' as int + 52;
    CharacterAt(i);
    i
  }

  /** No character appears twice in the alphabet, so different draws give different characters. */
  lemma CharactersAreDistinct(i: nat, j: nat)
    requires i < |Characters| && j < |Characters| && i != j
    ensures Characters[i] != Characters[j]
  {
    if Characters[i] == Characters[j] {
      var c := Characters[i];
      assert IsAlphanumeric(c) by { CharactersAreAlphanumeric(); }
      IndexIsUnique(c, i);
      IndexIsUnique(c, j);
    }
  }

  lemma IndexIsUnique(c: char, i: nat)
    requires IsAlphanumeric(c) && i < |Characters| && Characters[i] == c
    ensures i == IndexOf(c)
  {
    CharacterAt(i);
  }

  /** What the generator returns for these draws. */
  function PasswordFor(draws: seq<nat>): (p: string)
    requires forall i :: 0 <= i < |draws| ==> draws[i] < |Characters|
    ensures |p| == |draws|
  {
    if draws == [] then [] else PasswordFor(draws[..|draws| - 1]) + [Characters[draws[|draws| - 1]]]
  }

  /** Every twelve-character alphanumeric string is a possible password, from exactly one choice of draws. */
  lemma EveryAlphanumericPasswordIsReachable(p: string)
    requires |p| == Length && forall i :: 0 <= i < |p| ==> IsAlphanumeric(p[i])
    ensures exists draws :: ValidDraws(draws) && PasswordFor(draws) == p
  {
    var draws := DrawsFor(p);
    PasswordForDrawsFor(p);
  }

  function DrawsFor(p: string): (draws: seq<nat>)
    requires forall i :: 0 <= i < |p| ==> IsAlphanumeric(p[i])
    ensures |draws| == |p|
    ensures forall i :: 0 <= i < |p| ==> draws[i] < |Characters| && Characters[draws[i]] == p[i]
  {
    if p == [] then [] else DrawsFor(p[..|p| - 1]) + [IndexOf(p[|p| - 1])]
  }

  lemma {:induction false} PasswordForDrawsFor(p: string)
    requires forall i :: 0 <= i < |p| ==> IsAlphanumeric(p[i])
    ensures PasswordFor(DrawsFor(p)) == p
  {
    if p != [] {
      var init := p[..|p| - 1];
      PasswordForDrawsFor(init);
      assert DrawsFor(p)[..|p| - 1] == DrawsFor(init);
      assert init + [p[|p| - 1]] == p;
    }
  }

  /** Different draws give different passwords. */
  lemma PasswordForIsInjective(a: seq<nat>, b: seq<nat>)
    requires ValidDraws(a) && ValidDraws(b) && PasswordFor(a) == PasswordFor(b)
    ensures a == b
  {
    forall i | 0 <= i < Length ensures a[i] == b[i] {
      PasswordForAt(a, i);
      PasswordForAt(b, i);
      if a[i] != b[i] {
        CharactersAreDistinct(a[i], b[i]);
      }
    }
  }

  lemma {:induction false} PasswordForAt(draws: seq<nat>, i: nat)
    requires forall k :: 0 <= k < |draws| ==> draws[k] < |Characters|
    requires i < |draws|
    ensures PasswordFor(draws)[i] == Characters[draws[i]]
  {
    if i < |draws| - 1 {
      PasswordForAt(draws[..|draws| - 1], i);
    }
  }
}
