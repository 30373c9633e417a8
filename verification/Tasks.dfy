/**
 What the thread pool and the timer run, by name. Two submissions may carry the same task.
 */
module Tasks {
  type Task = int
}
