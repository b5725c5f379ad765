/** Content hashes are parameters of the model; that they do not collide is assumed where it is needed. */
module Hashes {
  ghost predicate Injective(hash: string -> string) {
    forall a, b :: hash(a) == hash(b) ==> a == b
  }
}
