/** `email.split('@')[0]`: the college id that registration and the class actions
  * derive from an e-mail address. */
module CollegeIds {

  /** The text before the first '@' of `email`, or all of it when there is no '@'. */
  function CollegeIdOf(email: string): (c: string)
    ensures '@' !in c
    ensures |c| <= |email| && c == email[..|c|]
    ensures |c| < |email| ==> email[|c|] == '@'
    ensures '@' !in email ==> c == email
  {
    if email == [] || email[0] == '@' then []
    else [email[0]] + CollegeIdOf(email[1..])
  }

  /** The college id is empty exactly when the address starts with '@' or is empty. */
  lemma EmptyCollegeId(email: string)
    ensures CollegeIdOf(email) == [] <==> email == [] || email[0] == '@'
  {
  }
}
