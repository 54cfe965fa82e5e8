/** The optional value used for every "maybe" result of the renderer:
    a hit that may not exist, a refraction that may fail, a sample that
    the finite stream of draws may not contain. */
module Options {

  datatype Option<+T> = None | Some(value: T)
}
