/** What every part of the kernel takes from threads/thread.h. */
module Threads {
  type Tid = int

  const PRI_MIN := 0
  const PRI_MAX := 63
}
