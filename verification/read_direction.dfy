/** `ReadDirection` (src/read_direction.rs): the order in which a read walks a stream. */
module ReadDirections {
  datatype ReadDirection =
    | Forward   // from event 0 to the latest
    | Backward  // from the latest to event 0
}
