/** The two directories that a day's file may lie in. */
module Tiers {
  datatype Tier = Hot | Cold
}
