/**
 * The room controls both browser scripts share: join() reads the room field and falls
 * back to "default" when it is empty, and leave() tests `roomName` for truthiness before
 * it asks the server to leave.
 */
module Session {
  import opened Common

  /** The socket.io events a client emits for its own room. */
  datatype RoomRequest = JoinRequest(room: string) | LeaveRequest(room: string)

  /**
   * The room join() uses for the text typed in the room field (value || 'default'):
   * never empty, the typed text if there is any, "default" otherwise.
   */
  function RoomChoice(input: string): (room: string)
    ensures room != ""
    ensures input != "" ==> room == input
    ensures input == "" ==> room == "default"
  {
    if input == "" then "default" else input
  }

  /** JavaScript truthiness of `roomName`: null and the empty string are false. */
  predicate InRoom(roomName: Option<string>)
  {
    roomName.Some? && roomName.value != ""
  }
}
