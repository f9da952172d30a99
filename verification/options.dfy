/** The optional value used for "which snapshot, if any, is handed to the canvas to load". */
module Options {

  datatype Option<+T> = None | Some(value: T)

}
