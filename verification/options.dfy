/** The optional value used wherever the program has a "nothing here" case:
    a regex that does not match, a conversion that raises, a loop that has
    not converged. */
module Options {

  datatype Option<+T> = None | Some(value: T)
}
