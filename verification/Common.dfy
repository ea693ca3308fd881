/** Small types and functions used by several models. */
module Common {

  datatype Option<T> = None | Some(value: T)

  /** A translation: a physical page, or address, and the access flags. */
  datatype Mapping = Mapping(phys: nat, flags: nat)

  function Min(a: nat, b: nat): nat {
    if a < b then a else b
  }
}
