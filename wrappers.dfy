/** The optional value used for decoders that may fail and for absent inputs. */
module Wrappers {

  datatype Option<+T> = None | Some(value: T)
}
