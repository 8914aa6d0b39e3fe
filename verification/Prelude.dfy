/** Types that more than one part of the model needs. */
module Prelude {

  datatype Option<T> = None | Some(value: T)

  newtype byte = b: int | 0 <= b < 256

  /**
   How one exchange with the router ends: before it acted, after it acted but
   with the answer lost, or well. `id` is the identifier it gives a created row.
   */
  datatype Reply = Refused | Lost(id: string) | Done(id: string)
}
