/** The states of a task. */
module TaskStates {
  datatype TaskState = Ready | Running | Blocked | Exited
}
