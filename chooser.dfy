/** The answer chooser (`RandomUniformOracle.choose`); the random pick is an arbitrary member. */
module Chooser {
  import opened Wrappers

  /** Some word of the list, or `EmptyVocabulary` when the list is empty. */
  method Choose(validWords: seq<string>) returns (r: Result<string>)
    ensures validWords == [] ==> r == Err(EmptyVocabulary)
    ensures validWords != [] ==> r.Ok? && r.value in validWords
  {
    if validWords == [] {
      return Err(EmptyVocabulary);
    }
    assert validWords[0] in validWords;
    var w :| w in validWords;
    return Ok(w);
  }
}
