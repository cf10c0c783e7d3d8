/** What several parts of the model share. */
module Common {
  datatype Option<T> = None | Some(value: T)

  /** An event is incremented and decremented as a 16-bit word (kernel/utils/spinlock.h), so it has this
      many values. */
  const COUNTS := 0x1_0000
}
