/** The names a row of the order ladder may carry (src/models/OrderStatus.entity.ts). */
module OrderStatusEntity {
  datatype OrderStatusType =
    | Default
    | Confirmed
    | Preparing
    | Queued
    | Delivering
    | Delivered
    | CleanUp
    | Complete

  /** The string the enum member stands for, as stored in the `name` column. */
  function Label(t: OrderStatusType): string {
    match t
    case Default => "Pending/InCart"
    case Confirmed => "Paid/Confirmed"
    case Preparing => "Preparing"
    case Queued => "Queued"
    case Delivering => "Delivering"
    case Delivered => "Eating/Delivered"
    case CleanUp => "CleanUp"
    case Complete => "Complete"
  }
}
