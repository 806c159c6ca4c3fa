# First-steps product list: a Dafny model

This project models the only stateful logic of the "first steps" front-end
application: the list of products, each with a name and a quantity, that
`FirstStepsApp` owns, and the per-row `ItemCounter` component whose "-" and
"+" buttons change a quantity. The row guards against a quantity going
negative, and forwards any other change to the app. The app applies the
change to every record with that name.

- `item_counter.dfy`, module `ItemCounter`: a row's props, its two buttons and their fixed deltas
  (-1 and +1), the `onHandleQuantity` guard, and `Option`, which is `None` for a request the guard
  drops.
- `first_steps_app.dfy`, module `FirstStepsApp`: the `Item` record, the seed list, the
  `handleQuantityChange` map, a click as one synchronous step (`Click`), and sequences of clicks
  (`Run`).

The invariant is `Valid`: names are distinct and no quantity is negative. It holds of the seed
and is kept by every click, so it holds of every state reachable from the seed. Distinct names
belong to the invariant because the map changes *every* record with the target name, while the
guard reads only the clicked row's quantity. `DuplicateNamesBreakFloor` exhibits the negative
quantity that a list with a repeated name would reach. The update never changes a name, so
distinctness is kept.

A click is addressed by row position. Each row is its own component rendered from one record,
so the quantity its guard reads is that record's quantity. In a single-threaded sequence of
steps, this equals the quantity the functional state updater sees.

## Model

| member | source | states |
|---|---|---|
| ItemCounter.Delta | src/components/ItemCounter.tsx:29-48 | the "-" button sends -1 and the "+" button sends +1; no other delta is ever issued |
| ItemCounter.OnHandleQuantity | src/components/ItemCounter.tsx:16-20 | the request is dropped exactly when quantity + delta < 0; otherwise it is forwarded with the row's name and the delta unchanged, and the forwarded change leaves the quantity non-negative |
| ItemCounter.Press | src/components/ItemCounter.tsx:16-48 | a button click forwards at most one change, for the row's own name and with exactly that button's delta; "+" on a non-negative quantity always forwards +1; "-" forwards -1 when the quantity is at least 1 and is dropped exactly when it is below 1 |
| FirstStepsApp.InitialItems | src/FirstStepsApp.tsx:5-9 | the seed has three items, named "Nintendo Switch", "Xbox Series X" and "PlayStation 5" in that order, each with quantity 1; their names are distinct and no quantity is negative |
| FirstStepsApp.HandleQuantityChange | src/FirstStepsApp.tsx:14-20 | the length and order are kept, and every name is kept; a record with a different name is returned unchanged; a record with the target name gets quantity + delta; an unknown name leaves the list unchanged |
| FirstStepsApp.NamesPreserved | src/FirstStepsApp.tsx:17 | an update leaves the sequence and the multiset of names unchanged, so distinct names stay distinct |
| FirstStepsApp.Click | src/FirstStepsApp.tsx:26-31 | a click whose quantity + delta < 0 leaves the whole list unchanged; any other click equals the list update applied with that row's name and the button's delta |
| FirstStepsApp.ClickChangesOnlyItsRow | src/components/ItemCounter.tsx:18-19 | with distinct names, a click changes only its own row, and moves that row's quantity by the delta unless the result would be negative |
| FirstStepsApp.ClickPreservesValid | src/components/ItemCounter.tsx:18 | a click keeps names distinct and every quantity non-negative |
| FirstStepsApp.RunPreservesValid | src/components/ItemCounter.tsx:16-20 | every sequence of clicks keeps names distinct and every quantity non-negative |
| FirstStepsApp.ReachableFromSeedIsValid | src/FirstStepsApp.tsx:5-12 | no state reachable from the seed has a negative quantity or a repeated name |
| FirstStepsApp.IncrementsAccumulate | src/components/ItemCounter.tsx:45 | n clicks on "+" raise the row by exactly n, with no ceiling, and leave every other row unchanged |
| FirstStepsApp.DecrementsFloorAtZero | src/components/ItemCounter.tsx:31 | n clicks on "-" lower the row by n, but stop at 0, and leave every other row unchanged |
| FirstStepsApp.RunAppend | src/FirstStepsApp.tsx:14-19 | applying two click sequences in turn is the same as applying their concatenation |
| FirstStepsApp.SeedTwoDecrementsReadZero | src/FirstStepsApp.test.tsx:89-112 | from the seed, two clicks on "-" of "Nintendo Switch" read 0, not -1 |
| FirstStepsApp.SeedIncrementsThenDecrement | src/FirstStepsApp.test.tsx:60-87 | from the seed, two clicks on "+" of "Nintendo Switch" read 3, and one "-" after them reads 2 |
| FirstStepsApp.DuplicateNamesBreakFloor | src/FirstStepsApp.tsx:17 | with two rows of one name, a "-" on the row showing 1 passes the guard but drives the other row from 0 to -1; this is why distinct names are part of the invariant |

## Left out

- Deleting an item. `ItemCounter` calls its `onDeleteItem` prop with the row's name
  (src/components/ItemCounter.tsx:50). `FirstStepsApp` never supplies that prop and has no removal
  handler, so a Delete click calls an undefined prop: the handler throws a `TypeError` and the
  list stays unchanged. The code has no removal operation, so the model has none. The delete test in
  src/FirstStepsApp.test.tsx:19-35 describes behaviour that is not in the code.
- Rendering: JSX markup, CSS classes, ARIA labels and `UserCard`. These are presentation and hold
  no logic.
- React state scheduling, re-render timing and event dispatch. Each click is modelled as one
  synchronous step.
- Arithmetic helpers in src/helpers/math.helpers.ts. They are wrappers over double-precision
  floating point and are not used by the product list.
- `MyAwesomeApp`, `main.tsx` and the test-runner configuration. These are static markup, DOM
  bootstrap and tooling.
- FirstStepsApp.IncrementsAccumulate: quantities are unbounded integers. A JavaScript number stops
  representing every integer above 2^53, so the exact `+ n` holds in the source only below that
  bound.
- FirstStepsApp.Click: a click addresses a row that is on screen (`row < |items|`). Clicks on rows
  that are not rendered cannot occur, so they are not modelled.
