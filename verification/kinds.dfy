/** The closed set of value kinds a filter expression node can advertise. */
module Kinds {

  datatype Kind = Boolean | Numeric | String | Set
}
