/** The names a row of the order-dish ladder may carry (src/models/OrderDishStatus.entity.ts). */
module OrderDishStatusEntity {
  datatype OrderDishStatusType =
    | Default
    | Confirmed
    | Preparing
    | Queue
    | Delivering
    | Delivered
    | CleanUp
    | Complete

  /** The string the enum member stands for, as stored in the `name` column. */
  function Label(t: OrderDishStatusType): string {
    match t
    case Default => "Pending/InCart"
    case Confirmed => "Paid/Confirmed"
    case Preparing => "Preparing"
    case Queue => "Queued"
    case Delivering => "Delivering"
    case Delivered => "Eating/Delivered"
    case CleanUp => "CleanUp"
    case Complete => "Complete"
  }
}
