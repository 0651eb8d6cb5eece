/** Characters with an effect of their own. */
module Characters {
  const BACKSPACE := '\U{8}'
}
