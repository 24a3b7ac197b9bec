/** The optional value used where the bot's JavaScript may hold `undefined`. */
module Wrappers {

  datatype Option<+T> = None | Some(value: T)
}
