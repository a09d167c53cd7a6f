/** Small value types shared by the components: a missing-or-present wrapper
    (what `getAttribute` and `querySelector` return) and the inline
    `style.display` value the handlers write. */
module Dom {

  datatype Option<+T> = None | Some(value: T)

  /** An element's inline `style.display`: not set by script, `'block'` or `'none'`. */
  datatype Display = Unset | Block | Hidden
}
