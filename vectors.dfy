/** The embedding vectors both engines store: one real per dimension. */
module Vectors {
  type Embedding = seq<real>
}
