/** A registered user's record, as kept in the users dictionary. */
module Records {
  import opened Wrappers
  import Elo

  datatype Gender = Male | Female

  /**
   * The stored fields: password hash, rating, photo path (None until an
   * upload), gender, the times of the user's own recent votes, and how many
   * comparisons the user's photo has been part of.
   */
  datatype User = User(
    passwordHash: string,
    elo: int,
    pic: Option<string>,
    gender: Gender,
    voteTimes: seq<int>,
    matchesPlayed: nat)

  /** The record written at registration. */
  function NewUser(passwordHash: string, gender: Gender): (u: User)
    ensures u.passwordHash == passwordHash && u.gender == gender
    ensures u.elo == Elo.BaseElo && u.pic.None? && u.voteTimes == [] && u.matchesPlayed == 0
    ensures !HasPhoto(u)
  {
    User(passwordHash, Elo.BaseElo, None, gender, [], 0)
  }

  /**
   * Python truthiness of the photo path, the test the voting code applies:
   * no path and the empty path both count as "no photo".
   */
  predicate HasPhoto(u: User)
  {
    u.pic.Some? && u.pic.value != ""
  }
}
