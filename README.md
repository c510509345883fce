# Bannered-Stallion order lifecycle in Dafny

Bannered-Stallion is a food-ordering back end. Customers put dishes from
vendors into an order. The order then climbs a fixed ladder of statuses:
Pending/InCart, Paid/Confirmed, Preparing, Queued, Delivering,
Eating/Delivered, CleanUp, Complete. Each rung carries an
`isVendorControlled` flag. A request may move an order one rung up
only when the flag of the target rung belongs to the side making the
request.

This project models the core of that lifecycle.

- **Store** (`store.dfy`) stands in for the relational store.
  - Each table is a sequence of rows under auto-increment keys, plus the next key.
  - The `Database` class holds one such table per entity.
  - Each handler runs in one transaction, so it is modelled as one atomic update of the tables it writes.
- **UtilsService** (`utils_service.dfy`) holds the two helpers.
  - `findNextStatus` is the transition rule.
  - `convertToArray` turns a comma-separated id list into numbers, with `String.prototype.trim` and `split(",")` written out.
- **SeederService** (`seeder_service.dfy`) fills the roles, ratings, order-status and order-dish-status tables, each only while it is empty.
- **OrderController** (`order_controller.dfy`) models `createOrder`, `updateOrder`, `deleteOrder` and `createOrderDish`. Each returns an outcome whose `Code()` is the HTTP status it sends.
- **Lifecycle** (`lifecycle.dfy`) combines the pieces.
  - It evaluates the rule and the `updateOrder` checks on the ladders exactly as the seeder writes them.
  - It shows that the customer alone can move an order from the cart to Paid/Confirmed and no further.
  - It states one concrete scenario on a freshly seeded store (create an order, then update it twice) and proves its two answers.
- The enums (`order_status_entity.dfy`, `order_dish_status_entity.dfy`, `role_entity.dfy`) and the row value types (`models.dfy`) define the data.

How the `isVendorControlled` flag is used follows the code:

- `findNextStatus` reads the flag of the successor rung: the side that controls the target rung may move onto it.
- `updateOrder` first refuses when the current rung is vendor-controlled.

An informal reading in which the flag governs who may *leave* a rung gives different answers for two steps of the order ladder: Paid/Confirmed → Preparing and Delivering → Eating/Delivered.

- On the first step, the code makes the customer wait (202); the other reading would let the customer advance the order.
- Within `updateOrder`, only that first answer changes. The vendor-controlled pre-check refuses an order standing on Delivering under either reading.

The model does not take that reading.

## Model

| member | source | states |
|---|---|---|
| Store.IndexOfId | src/services/utils/utils.service.ts:23-25 | `findIndex` by key: -1 exactly when no row has the key; otherwise a row with the key that no earlier row shares |
| Store.IndexOfOwnKey | src/models/Order.entity.ts:27-28 | with generated (strictly increasing) keys, looking up a row's own key finds that row's position |
| Store.KeyIdentifiesRow | src/models/Order.entity.ts:27-28 | with generated keys, two stored rows with the same key are the same row |
| Store.Without | src/controllers/order.controller.ts:192 | removal keeps exactly the rows with another key, in both directions, and keeps keys increasing |
| Store.InsertKeeps | src/services/utils/seeder.service.ts:58-93 | saving a batch whose values all have a property keeps that property true of every stored row |
| Store.Table.Find | src/controllers/order.controller.ts:140-142 | lookup by primary key: a stored row with that key, or none exactly when no row has it |
| Store.Table.Insert | src/controllers/order.controller.ts:45-47 | saving new entities appends them under consecutive fresh keys, leaves existing rows untouched and keeps the table valid |
| Store.Table.Replace | src/controllers/order.controller.ts:159-161 | saving an existing entity changes only the row with that key, and keeps the table valid |
| Store.Table.Remove | src/controllers/order.controller.ts:192 | removal drops exactly the rows with that key and never hands the key out again |
| UtilsService.FindNextStatus | src/services/utils/utils.service.ts:18-37 | an advance is always to the rung right after the first one with the current key, is an order rung, and goes to the side that controls it; an unknown current key gives 400 |
| UtilsService.TerminalIsInvalid | src/services/utils/utils.service.ts:27 | the last rung gives 400 for both sides |
| UtilsService.SuccessorDecides | src/services/utils/utils.service.ts:29-36 | below the last rung the answer is: 400 for an order-dish successor, the successor for its controlling side, 202 for the other |
| UtilsService.ExactlyOneSideAdvances | src/services/utils/utils.service.ts:33-36 | on a non-terminal rung with an order successor, exactly one of vendor and customer advances and the other gets 202 |
| UtilsService.OrderDishLadderNeverAdvances | src/services/utils/utils.service.ts:31 | a ladder of order-dish rows never yields a successor |
| UtilsService.TrimStart | src/services/utils/utils.service.ts:7 | the front half of `trim`: the result is a suffix of the input, all of the cut-off prefix is white space, and the result does not start with white space |
| UtilsService.TrimEnd | src/services/utils/utils.service.ts:7 | the back half of `trim`: the result is a prefix of the input, all of the cut-off suffix is white space, and the result does not end with white space |
| UtilsService.Trim | src/services/utils/utils.service.ts:7 | the trimmed input is empty exactly when every character is ECMAScript white space or a line terminator, which is the blank test of line 7 |
| UtilsService.Split | src/services/utils/utils.service.ts:12 | `split(",")` yields at least one piece, and no piece contains a comma |
| UtilsService.JoinSplit | src/services/utils/utils.service.ts:12 | joining the pieces with commas gives back the input |
| UtilsService.SplitPrefix | src/services/utils/utils.service.ts:12 | a comma-free prefix only extends the first piece |
| UtilsService.SplitNoComma | src/services/utils/utils.service.ts:9 | a string without a comma is one piece, itself |
| UtilsService.SplitJoin | src/services/utils/utils.service.ts:12 | splitting comma-free pieces joined with commas gives back the pieces |
| UtilsService.ToNumbers | src/services/utils/utils.service.ts:12-13 | the mapped numbers are returned exactly when every piece is finite, one per piece, in order |
| UtilsService.ConvertToArray | src/services/utils/utils.service.ts:6-16 | returns numbers exactly when the input is a non-blank string whose every piece is finite; then one number per piece, in order |
| UtilsService.ConvertSingle | src/services/utils/utils.service.ts:9-10 | a comma-free input with a finite number yields exactly that one number |
| UtilsService.ConvertByPieces | src/services/utils/utils.service.ts:12-13 | for any comma-free pieces joined by commas, the result is their numbers in order if all are finite, and `false` otherwise |
| SeederService.InsertIfEmpty | src/services/utils/seeder.service.ts:55-93 | one populate step: a table with a row is left as it is; an empty one gets exactly the batch, in order, under consecutive fresh keys; validity is kept |
| SeederService.Seed | src/services/utils/seeder.service.ts:151-159 | one seeding pass: afterwards each of the four static tables has rows, and a table that had rows is left untouched |
| SeederService.InsertIfEmptyIdempotent | src/services/utils/seeder.service.ts:55-56 | a second populate step changes nothing |
| SeederService.SeedIdempotent | src/services/utils/seeder.service.ts:148-159 | seeding twice leaves all four static tables as seeding once does |
| SeederService.RoleSeed | src/services/utils/seeder.service.ts:17-21 | the roles batch: Admin, Vendor, Customer, in that order |
| SeederService.RatingSeed | src/services/utils/seeder.service.ts:37-44 | the ratings batch: scores 0, 1, 2, 4, 4, 5, in that order, as written |
| SeederService.OrderStatusSeed | src/services/utils/seeder.service.ts:58-91 | the order ladder batch: the eight order rungs from Pending/InCart to Complete, with the flag set on Preparing, Queued and Delivering (its properties are stated by `OrderStatusSeedShape`) |
| SeederService.OrderDishStatusSeed | src/services/utils/seeder.service.ts:105-138 | the order-dish ladder batch: the same eight names, with the flag set on Preparing, Queued, Delivering and Eating/Delivered (compared with the order ladder by `LaddersDifferOnlyAtDelivered`) |
| SeederService.OrderStatusSeedShape | src/services/utils/seeder.service.ts:58-91 | the order ladder is the eight order rungs in canonical order, and exactly Preparing, Queued and Delivering are vendor-controlled |
| SeederService.LaddersDifferOnlyAtDelivered | src/services/utils/seeder.service.ts:105-138 | the order-dish ladder has the same eight names in the same order, and its flags differ from the order ladder's only at Eating/Delivered, which it makes vendor-controlled |
| SeederService.PopulateRoles | src/services/utils/seeder.service.ts:11-30 | returns true exactly when the table was empty; the roles table becomes Admin, Vendor, Customer if it was empty and is unchanged otherwise |
| SeederService.PopulateRatings | src/services/utils/seeder.service.ts:32-52 | returns the saved ratings exactly when the table was empty; the table becomes the six scores if it was empty and is unchanged otherwise |
| SeederService.PopulateOrderStatus | src/services/utils/seeder.service.ts:54-99 | returns true exactly when the table was empty; the table becomes the order ladder if it was empty and is unchanged otherwise; the table still holds order rungs only |
| SeederService.PopulateOrderDishStatuses | src/services/utils/seeder.service.ts:101-146 | the same for the order-dish ladder; the table still holds order-dish rungs only |
| SeederService.PopulateDatabaseStaticTables | src/services/utils/seeder.service.ts:148-160 | the four static tables become the result of one seeding pass, and no other table changes |
| SeederService.SeedTwice | src/services/utils/seeder.service.ts:148-160 | running the seeding twice leaves the database as running it once |
| Store.Database.constructor | src/models/Order.entity.ts:25-55 | the schema as a whole, one table per entity of src/models (roles, ratings, the two ladders, users, dishes, orders, order dishes; the cited `Order` entity is one of them): a fresh store has the given users and dishes and every other table empty, with keys starting at 1 |
| OrderController.OwnedBy | src/controllers/order.controller.ts:141 | the ownership filter of the order queries: the order's user is a stored user whose `sub` is the caller's |
| OrderController.FindOwnedOrder | src/controllers/order.controller.ts:140-142 | the order with that key if its user has the caller's `sub`; none exactly when no stored order with that key is the caller's |
| OrderController.FindUserBySub | src/controllers/order.controller.ts:31-33 | a stored user with the caller's `sub`, or none exactly when there is no such user |
| OrderController.CreateOrder | src/controllers/order.controller.ts:19-62 | 401 exactly when the caller is unknown, 500 exactly when there is no status, else a new order of the caller on the first rung under the next key; only the orders table changes |
| OrderController.DecideUpdate | src/controllers/order.controller.ts:129-157 | a vendor-controlled current rung is refused; an advance is to the next rung, with both rungs customer-controlled; every refusal is one of the four responses, and the 400 message names the current rung |
| OrderController.DecideUpdateUsesCustomerSide | src/controllers/order.controller.ts:146-157 | past the vendor check, the decision is the transition rule's answer for the customer side: row, 202 or 400; a refusal is sent with exactly the status the rule returned |
| OrderController.UpdateOrder | src/controllers/order.controller.ts:101-169 | 404 when the caller owns no such order; otherwise the decision's response; on an advance only that order's status changes, to the next rung; on any other outcome nothing changes |
| OrderController.HasLineItems | src/models/OrderDish.entity.ts:18-20 | some stored line item is on the order: the non-nullable foreign key without a delete rule that blocks removing the order |
| OrderController.LineItemsOnStoredOrders | src/models/OrderDish.entity.ts:18-20 | the foreign key holds: every stored line item is on a stored order |
| OrderController.DeleteOrder | src/controllers/order.controller.ts:171-203 | 404 exactly when the caller owns no such order; 500 with nothing removed exactly when line items are still on the caller's order (the removal at line 192 is refused and the catch at lines 196-201 answers); otherwise 200 and the order is removed; in every case line items stay on stored orders |
| OrderController.MatchingDishes | src/controllers/order.controller.ts:239-244 | exactly the stored dishes whose key is listed and whose vendor is not the caller's, in table order |
| OrderController.NewOrderDishes | src/controllers/order.controller.ts:253-255 | one line item per dish, in order, each on the order and the default rung |
| OrderController.CreateOrderDish | src/controllers/order.controller.ts:205-272 | 400 exactly for a missing id list and 500 exactly for an unconvertible one; then 404 for a missing order or no matching dish, 500 when the status table is empty; else the line items are appended and returned; on any failure nothing changes; line items stay on stored orders |
| OrderController.SaveOrderDishes | src/controllers/order.controller.ts:229-259 | the transaction for converted ids: 404 without the caller's order, 404 without a matching dish, 500 without a default line-item status, else exactly the new line items appended and returned; nothing changes on failure; line items stay on stored orders |
| OrderController.ItemsOnStoredOrderKeepKey | src/controllers/order.controller.ts:253-257 | saving line items on a stored order keeps every line item on a stored order |
| OrderController.CreatedItemsAreTheMatches | src/controllers/order.controller.ts:251-259 | the returned items are the matching dishes, one each, in order, under consecutive fresh keys, on the first order-dish rung |
| OrderController.SuccessCodes | src/controllers/order.controller.ts:19-272 | every handler sends a 2xx status exactly on its success outcomes: 201 for a created order or line items, 200 for an advanced or deleted order, 202 for the wait on the vendor |
| Lifecycle.PopulatedLadderIsSeeded | src/services/utils/seeder.service.ts:54-99 | populating an empty ladder table yields the batch in order under consecutive increasing keys |
| Lifecycle.OrderLadderStep | src/services/utils/utils.service.ts:27-36 | on the seeded order ladder every rung but the last advances for the side controlling the next rung, and is 202 for the other |
| Lifecycle.OrderLadderEnds | src/services/utils/utils.service.ts:27 | Complete is the last seeded rung and is terminal for both sides |
| Lifecycle.OrderLadderScenarios | src/services/utils/utils.service.ts:18-37 | on the seeded ladder: the customer confirms a cart, then waits on the vendor, who may start preparing; nobody moves a complete order |
| Lifecycle.OrderDishLadderFrozen | src/services/utils/utils.service.ts:31 | no rung of the seeded order-dish ladder ever advances |
| Lifecycle.UpdateOnSeededLadder | src/controllers/order.controller.ts:129-157 | the `updateOrder` answer on each seeded rung: advance from cart, Eating/Delivered and CleanUp; 202 at Paid/Confirmed; refusal on the three vendor rungs; 400 at Complete |
| Lifecycle.OwnerAloneStopsAtConfirmed | src/controllers/order.controller.ts:146 | however often its owner calls `updateOrder`, an order that starts in the cart never gets past Paid/Confirmed |
| Lifecycle.SeededStore | src/services/utils/seeder.service.ts:148-160 | a fresh store with one user, seeded once, holds the order ladder under keys 1 to 8 and no order |
| Lifecycle.LookupsOnSeededStore | src/controllers/order.controller.ts:120-142 | in that store, both lookups of `updateOrder` find the caller's order and its rung |
| Lifecycle.UpdateOnSeededStore | src/controllers/order.controller.ts:101-169 | in that store, one request by the customer moves a cart order to Paid/Confirmed, and leaves a confirmed one waiting with 202 |
| Lifecycle.ConfirmThenWait | src/controllers/order.controller.ts:19-169 | on a freshly seeded store, create then update gives 200 with the order on rung 2, and a second update gives 202 |

## Left out

- `readOrders`, `readOrderDishes`, `deleteOrderDish` and the other controllers (users, vendors, dishes) are not part of this model. Users and dishes enter the store as given tables.
- Session handling is not modelled. The caller's `sub` is a parameter, so the 401 answers for a missing session cookie are absent. `createOrder`'s 401 for an unknown user is modelled.
- The 400 answers for a missing `orderId` route parameter (`updateOrder`, `createOrderDish`) are not modelled. `Number(orderId)` is not modelled either: the order key arrives as a natural number. The missing-`dishId` 400 is modelled.
- `Number()` on a piece of the id list is a parameter (`toNumber`), because JavaScript's numeric string grammar is not modelled. Only finiteness and the resulting value matter.
- Response bodies and messages are not modelled. The one exception is the "Cannot change order status after …" message, which names the current rung.
- Timestamps (`created_at`, `updated_at`, `delivered_at`, `completed_at`) are not modelled. `updated_at` changes on every save.
- Each handler is treated as one transaction. Thrown errors from the store are not modelled, and neither are the `catch` branches that turn them into `false` or a 500. Two exceptions are modelled. The insert of order-dish rows without a status (a non-nullable column) is the 500 `SaveFailed`. The removal of an order that line items are still on (a foreign key without a delete rule) is the 500 `DeleteFailed`.
- `populateDatabaseStaticTables` does not await its transaction. Its concurrency with other requests is not modelled: the four steps run in order, as one unit.
- Of the foreign keys, only line item → order is modelled. The others (order → user, order → status, line item → dish or status) are not, because no modelled handler removes a user, a status or a dish.
- `find` without an explicit order is taken to return rows in key (insertion) order. The first row is then the default status in `createOrder` and `createOrderDish`.
- The dish filter `vendor.vendorUser.user.sub` is collapsed into one `vendorSub` field per dish.
- OrderController.FindOwnedOrder: the source finds the order by key and owner in one query, and `updateOrder` makes that lookup twice (lines 120-127 and 140-142). The model makes one lookup by key and then checks the owner. With unique keys and one transaction the result is the same.
