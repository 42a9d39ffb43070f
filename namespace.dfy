/**
 * lib/services/namespace.ts, checkUsernameAvailability: despite its name it
 * performs no lookup; it only tests the username against
 * /^[a-z0-9-]{3,20}$/. The test is modelled as the regular-expression
 * engine runs it (a search over start positions, with greedy backtracking
 * repetition), and its meaning is proved separately.
 */
module Namespace {

  const MinLength := 3
  const MaxLength := 20

  /** The character class [a-z0-9-]. */
  predicate InClass(c: char) {
    'a' <= c <= 'z' || '0' <= c <= '9' || c == '-'
  }

  /**
   * Matching `[a-z0-9-]{3,20}$` from position `pos` after `count` repetitions:
   * greedily try one more repetition, and otherwise, once at least three are
   * done, try the rest of the pattern. Without the m flag `$` matches only at
   * the end of the input. It succeeds exactly when the rest of the input is
   * made of class characters and brings the repetitions to between 3 and 20.
   */
  function RepeatThenEnd(s: string, pos: nat, count: nat): (matched: bool)
    requires pos <= |s| && count <= MaxLength
    ensures matched <==>
      && MinLength <= count + (|s| - pos) <= MaxLength
      && forall i :: pos <= i < |s| ==> InClass(s[i])
    decreases MaxLength - count
  {
    || (count < MaxLength && pos < |s| && InClass(s[pos]) && RepeatThenEnd(s, pos + 1, count + 1))
    || (count >= MinLength && pos == |s|)
  }

  /** The whole pattern tried at `start`: without the m flag `^` matches only at 0. */
  function MatchAt(s: string, start: nat): bool
    requires start <= |s|
  {
    start == 0 && RepeatThenEnd(s, 0, 0)
  }

  /**
   * RegExp.prototype.test without the g flag: try each start position in
   * turn. Because of `^` only the attempt at position 0 can succeed.
   */
  function SearchFrom(s: string, start: nat): (found: bool)
    requires start <= |s|
    ensures found <==> start == 0 && RepeatThenEnd(s, 0, 0)
    decreases |s| - start
  {
    MatchAt(s, start) || (start < |s| && SearchFrom(s, start + 1))
  }

  /** A well-formed username: 3 to 20 characters, each one of a-z, 0-9 and '-'. */
  predicate IsValidUsername(s: string) {
    MinLength <= |s| <= MaxLength && forall i :: 0 <= i < |s| ==> InClass(s[i])
  }

  /** checkUsernameAvailability: true exactly for well-formed usernames. */
  function CheckUsernameAvailability(username: string): (available: bool)
    ensures available <==> IsValidUsername(username)
  {
    SearchFrom(username, 0)
  }

  /** Upper case, space, '.', '_' and a trailing newline are all refused. */
  lemma ForeignCharacterRefused(username: string, i: nat)
    requires i < |username|
    requires 'A' <= username[i] <= 'Z' || username[i] in {' ', '.', '_', '\n'}
    ensures !CheckUsernameAvailability(username)
  {
  }

  /** Hyphens may lead, trail or make up the whole name. */
  lemma HyphensAccepted()
    ensures CheckUsernameAvailability("---")
    ensures CheckUsernameAvailability("-a-")
  {
  }

  /** The length bounds 3 and 20 are inclusive. */
  lemma LengthBoundsInclusive(username: string)
    requires forall i :: 0 <= i < |username| ==> InClass(username[i])
    ensures CheckUsernameAvailability(username) <==> 3 <= |username| <= 20
  {
  }
}
