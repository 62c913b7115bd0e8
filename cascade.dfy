/** The cascade of candidate dotenv files, lowest priority first (`getFilenames`). */
module Cascade {
  import opened Wrappers

  /** JavaScript truthiness of the `-e` value: `undefined` and `''` are falsy. */
  predicate Truthy(env: Option<string>): (b: bool)
    ensures b <==> env != None && env != Some("")
  {
    env.Some? && env.value != ""
  }

  /**
   * The files to overlay, in the order they are read (later files win).
   * The shared base `.env` always comes first and a local override always
   * comes last; a truthy environment name adds its own file after the base and
   * its own local override after everything else.
   */
  function GetFilenames(env: Option<string>): (names: seq<string>)
    ensures |names| == if Truthy(env) then 4 else 2
    ensures names[0] == ".env"
    ensures Truthy(env) ==> names[1] == ".env." + env.value && names[2] == ".env.local"
    ensures names[|names| - 1] == if Truthy(env) then ".env." + env.value + ".local" else ".env.local"
    ensures forall i :: 0 <= i < |names| ==> ".env" <= names[i]
  {
    if Truthy(env)
    then [".env", ".env." + env.value, ".env.local", ".env." + env.value + ".local"]
    else [".env", ".env.local"]
  }

  /** An empty `-e` value selects the same files as no `-e` at all. */
  lemma EmptyEnvIsAbsent()
    ensures GetFilenames(Some("")) == GetFilenames(None) == [".env", ".env.local"]
  {
  }
}
