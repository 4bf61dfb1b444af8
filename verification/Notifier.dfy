/** The eventfd of socket/monitor/runner.h: a counter that notifications add to
    and a retrieval takes in one go. */
module Notifier {

  /** From this value on a retrieval tells the runner to quit. */
  const NOTIFY_QUIT: nat := 0x1_ffff_ffff
}
