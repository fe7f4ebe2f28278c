# Didact fiber renderer, modelled in Dafny

This project models the small React-like renderer of `own-react` ("Didact"):

- `createElement` builds element trees.
- `render` starts a render pass for a container.
- `workLoop` performs units of work (`performUnitOfWork`). A unit expands a fiber, gives it child fibers, links them and reconciles them against the previous tree, then picks the next fiber.
- Once no unit is left, `commitRoot` applies the pass to the DOM.
- The older, recursive `render` of `src/index.jsx` is modelled as well.

The DOM is a log of host calls (`HostOp`): create a node, assign a property, add or remove a listener, append a child, remove a child. A JavaScript `TypeError` (reading a property of `undefined` or `null`) is modelled as a trace that has thrown (`Trace.threw`), or as the outcome `Threw`. It is not a precondition, with one exception: a fiber that has no child, no sibling and no parent would make the climb of `performUnitOfWork` (src/index.tsx:215-224) read a property of `undefined`. The invariant `CanAdvance` excludes that fiber, and every reachable state meets that invariant, because the root fiber `render` creates always has one child.

Modules:

- `Wrappers`: `Option`.
- `Elements` (`elements.dfy`): elements and props objects, `createElement` and `createTextElement`. Both source files define these identically.
- `Host` (`host.dfy`): host calls and the key filters `isProps`, `isEvent` and `isNotEvent`. It also holds the four `forEach` passes of `updateDom` and the calls of `createDOM`, with their phase order.
- `LegacyRender` (`legacy_render.dfy`): the recursive `render` of `src/index.jsx`, as a trace.
- `Fibers` (`fibers.dfy`): fibers kept in an arena (a sequence indexed by fiber number) with `parent`, `sibling`, `alternate` and `children` links, the renderer's `State`, and its invariant `Inv`.
- `Reconcile` (`reconcile.dfy`): the linking loop and the two-cursor reconciliation loop of `performUnitOfWork`, as functions, with what they do proved against a positional reference (`Deleted`, `Tagged`).
- `UnitOfWork` (`unit_of_work.dfy`): the whole of `performUnitOfWork`, split into `Prepare`, `Reconciled` and `NextUnit`, and one step of the work loop.
- `Commit` (`commit.dfy`): `commitRoot`, `commitWork` and `updateDom`, as traces.
- `WorkLoop` (`work_loop.dfy`): `render` and the work loop cut into slices by the host. It is generic over the unit step and the commit, and the renderer's instances are `UnitStep` and `RootCommit`.
- `Runtime` (`session.dfy`): class `Session`. Its fields are the renderer's module-level variables (`nextUnitOfWork`, `wipRoot`, `currentRoot`, `deletions`), plus the fiber arena and the DOM call log.
  - Its methods carry the source's loops: the `forEach` passes, the child linking, the two-cursor walk, the parent climb, the removals and the work loop.
  - Each method is proved equal to the specification function above.

## Model

| member | source | states |
|---|---|---|
| Elements.CreateElement | src/index.tsx:3-32 | `createElement` (identical in src/index.jsx:17-37): the element has the given type, every prop except `children` with its value, and one child per argument in order. An object child passes unchanged; a primitive becomes a `TEXT_ELEMENT` holding it as `nodeValue` with no children. |
| Elements.WithoutChildren | src/index.tsx:6-9 | The spread `{...props, children}` keeps exactly the entries whose key is not `children`, and a props object with distinct keys stays one. |
| Elements.CreateElementKeepsProps | src/index.tsx:3-22 | No prop other than `children` is lost or changed by `createElement`, and the result is a proper object with distinct keys. |
| Elements.CreateElementIdempotent | src/index.tsx:12-19 | Building an element again from its own type, props and children (as objects) gives back the same element. |
| Host.ChildrenIsNotEvent | src/index.tsx:88-98 | `children` is never an event key, so the plain-prop passes are the only ones that could see it, and `isProps` removes it from them. |
| Host.EventName | src/index.tsx:51 | The event name is the key without its `on` prefix: character i is the key's character i + 2, except that an upper-case letter becomes the same letter in lower case, so the name holds no upper-case letter. |
| Host.PassOpsExact | src/index.tsx:106-133 | A filtered `forEach` pass issues a call for an entry exactly when the entry's key passes the filters, and issues no other call. |
| Host.PassOpsEmpty | src/index.tsx:106-133 | A pass issues nothing exactly when no key passes its filters. |
| Host.PassOpsShape | src/index.tsx:106-133 | Every call of a pass is on the given node, belongs to the pass's phase and never touches `children`, and every listener call uses a lower-case event name. |
| Host.UpdateDomOrder | src/index.tsx:100-134 | `updateDom` clears old plain props, then sets new plain props, then removes old listeners, then adds new listeners. Every call is on the node and none touches `children`. It issues no call exactly when neither props object has a key other than `children`. |
| Host.CreateDomShape | src/index.tsx:34-55 | `createDOM` creates one node first (a text node for `TEXT_ELEMENT`, otherwise an element of that tag), then only configures it. Every prop other than `children` is assigned, and every event prop gets a listener under its lower-cased name. |
| LegacyRender.RenderThrows | src/index.jsx:39-52 | The legacy `render` throws exactly when the tree holds a function component, which `document.createElement` refuses. |
| LegacyRender.RenderAllThrows | src/index.jsx:49 | Rendering a list of children throws exactly when one of their trees holds a function component. |
| LegacyRender.RenderNodes | src/index.jsx:39-52 | When it does not throw, `render` creates its nodes in serial order and appends each exactly once, children before parents, and appends nothing else. It assigns only to its own nodes. The element's own node is created first and appended to the container last. |
| LegacyRender.RenderShape | src/index.jsx:39-52 | When it does not throw, `render` creates exactly one node per element of the tree (`Size`). Its appends are, in order, exactly the (parent node, child node) pairs of the reference `Edges`, which numbers the elements in pre-order and hangs each child's node below its parent element's node and the top node below the container. |
| LegacyRender.RenderNests | src/index.jsx:39-52 | When it does not throw, the node of every child element is appended into the node of its parent element, and the element's node into the container. |
| LegacyRender.ChildEdges | src/index.jsx:49 | In the reference tree, the node of child k, numbered after its parent and the trees of the children before it, hangs below its parent's node. |
| LegacyRender.RenderAllNodes | src/index.jsx:49 | `children.forEach(render)` creates the children's nodes in order and appends each exactly once, children before parents, assigning only to them. |
| LegacyRender.RenderAllShape | src/index.jsx:49 | `children.forEach(render)` creates one node per element of the children's trees, and its appends are exactly the pairs of `EdgesAll`, in order. |
| LegacyRender.RenderAllNests | src/index.jsx:49 | `children.forEach(render)` appends the top node of every child's tree into the container, the k-th numbered after the trees before it. |
| LegacyRender.EdgesAllTops | src/index.jsx:49 | In the reference pairs of a list of trees, the top node of tree k hangs below the container. |
| LegacyRender.RenderAssignsProps | src/index.jsx:45-47 | The element's node gets every prop except `children` and no other assignment. |
| Fibers.Materialise | src/index.tsx:165-172 | A fiber's element children become fresh fibers, one per element in order, at the end of the arena. Every other fiber is unchanged, and the arena invariants are kept. |
| Fibers.ReplaceKeeps | src/index.tsx:157-163 | Rewriting a fiber's type, tag, node or element children, as expanding a unit does, keeps the arena invariants. This holds as long as its links stay and any alternate is older than the fiber. |
| Reconcile.Link | src/index.tsx:169-172 | After the linking loop, child `i` has the fiber as `parent` and child `i + 1` (none for the last) as `sibling`. Nothing else changes, and the arena stays well formed. |
| Reconcile.LinkFirstEffect | src/index.tsx:169-172 | After `i` rounds of the linking loop, exactly the first `i` children are linked. |
| Reconcile.LinkSiblingsParented | src/index.tsx:169-172 | Linking gives every fiber that is some fiber's sibling a parent. |
| Reconcile.Chain | src/index.tsx:184-207 | Following `sibling` links from a cursor visits arena fibers starting at the cursor, and visits none from an empty cursor. |
| Reconcile.ChainIncreasing | src/index.tsx:184-207 | A sibling chain visits ever larger fiber indices, so the cursors of the walk always advance. |
| Reconcile.Advance | src/index.tsx:181-207 | One round of the walk keeps every link and the arena well formed. It queues at most the old cursor for deletion and strictly shortens what is left of the two chains. |
| Reconcile.ReconcileLoop | src/index.tsx:181-208 | The walk only appends to the deletion list, only appends fibers of the arena, and changes no link. |
| Reconcile.ReconcileEffect | src/index.tsx:176-208 | Against the positional reference `Tagged`/`Deleted`, the new child at position k becomes UPDATE with the old child's node and the old child as alternate when the old child at k has the same type, and PLACEMENT otherwise. Exactly the orphaned old children (no new child at their position, or one of another type) are queued, in chain order. No other fiber changes. |
| Reconcile.ReconcileDeletes | src/index.tsx:182-186 | The deletion list the walk leaves is the old list followed by the orphaned old children. |
| Reconcile.ReconcileTags | src/index.tsx:188-204 | Every new child ends up as `Tagged` says for its position. |
| Reconcile.ReconcileKeeps | src/index.tsx:181-208 | The walk writes only the fibers of the new chain. |
| Reconcile.DeletedCount | src/index.tsx:181-208 | The walk queues as many fibers as the surplus of old children over new ones plus the number of shared positions whose types differ. |
| Reconcile.DeletedExactly | src/index.tsx:181-208 | An old fiber is queued exactly when it is an orphaned old child. |
| UnitOfWork.Expand | src/index.tsx:157-163 | A component fiber's children become the one element its function returns. A host fiber without a node gets `Made(made)` and exactly the calls of `createDOM` are logged. The root and already-placed fibers keep their node and log nothing. No other fiber changes. |
| UnitOfWork.Prepare | src/index.tsx:157-172 | After expanding and linking, the arena has grown by one fiber per expanded element child and stays well formed, with siblings parented and alternates older. |
| UnitOfWork.PrepareEffect | src/index.tsx:157-172 | The fiber's children are fresh fibers, one per expanded element child in order, each linked to the fiber and to the next. Every older fiber except the expanded one is unchanged. |
| UnitOfWork.ReconciledEffect | src/index.tsx:174-208 | Reconciling the fresh children against the alternate's children tags each as `Tagged` says, queues exactly the orphaned old children and leaves every older fiber as preparing left it. |
| UnitOfWork.ReconciledAlternates | src/index.tsx:198-200 | After reconciliation every `alternate` still points to an older fiber, since the fresh children only ever take old fibers as alternates. |
| UnitOfWork.ClimbNearest | src/index.tsx:215-224 | The parent climb returns the sibling of the nearest fiber on the ancestor line that has one, and nothing exactly when none has one. |
| UnitOfWork.NextUnitOrder | src/index.tsx:210-224 | The next unit is the first child if there is one, else the fiber's sibling, else the sibling of the nearest ancestor that has one, else nothing. |
| UnitOfWork.PerformEffect | src/index.tsx:155-225 | A unit of work tags every fresh child as `Tagged` says against the alternate's children and changes nothing else. It appends the orphaned old children to `deletions`: the surplus of old children plus the type mismatches. |
| UnitOfWork.Perform | src/index.tsx:155-225 | `performUnitOfWork` keeps the invariant with the returned fiber as cursor. It keeps both roots and only adds fibers. |
| UnitOfWork.Step | src/index.tsx:230-231 | One iteration of the work loop keeps the invariant and both roots and only adds fibers. |
| Commit.Removal | src/index.tsx:80 | Removing a deleted fiber issues one `removeChild` of its node. It throws, issuing nothing, exactly when the fiber has no parent, the parent has no node, or the fiber has no node. |
| Commit.RemovalsExact | src/index.tsx:79-81 | The removals run in queue order, one `removeChild` per fiber, taking its node out of its parent's node. They throw exactly when some queued fiber is not removable, after removing the fibers before the first such one. |
| Commit.HostParentNearest | src/index.tsx:142-146 | The climb finds the node of the nearest ancestor that has one, and throws exactly when no ancestor has one. |
| Commit.CommitWorkFlat | src/index.tsx:136-153 | `commitWork` issues, fiber by fiber in the order of `Committed`, exactly each fiber's own calls. It stops at the first call that throws. |
| Commit.CommittedPostOrder | src/index.tsx:136-153 | `commitWork` acts only on tagged fibers and handles every tagged child of a fiber before the fiber itself. It reaches every other fiber as a child of one it acts on later, and acts on the fiber it was called on last. An untagged fiber and everything below it get no call. |
| Commit.CommitWorkNoRemovals | src/index.tsx:136-153 | `commitWork` never removes a node. |
| Commit.CommitRoot | src/index.tsx:77-86 | `commitRoot` only appends to the call log and keeps the fibers, the cursor, both roots and the node count. It leaves `deletions` empty unless it throws. |
| Commit.CommitRootRemovalsFirst | src/index.tsx:77-86 | `commitRoot` removes every queued node, in queue order, before any other call, and removes nothing else. When it does not throw, `deletions` ends empty. When a removal throws, only the removals before it were issued. |
| WorkLoop.Render | src/index.tsx:58-70 | `render` adds a root fiber whose only child is the element, whose node is the container and whose alternate is the current root. That fiber becomes both `wipRoot` and the cursor. Everything else, `deletions` included, stays, and the invariant is kept. |
| WorkLoop.RunKeeps | src/index.tsx:230-233 | Any number of units keeps the invariant and both roots and only adds fibers. |
| WorkLoop.RunAdd | src/index.tsx:230-233 | Running `a` units and then `b` more is running `a + b` units. |
| WorkLoop.UnitsAdd | src/index.tsx:230-233 | The fibers performed by `a` units and then `b` more are those performed by `a + b` units, in the same order. |
| WorkLoop.RunStopsEarly | src/index.tsx:230 | The loop performs fewer units than its budget only when the cursor ran out. |
| WorkLoop.Finish | src/index.tsx:237-241 | The end of a pass never yields. It throws exactly when the commit throws, and its DOM calls are the commit's. |
| WorkLoop.FinishKeeps | src/index.tsx:237-241 | A finished pass keeps the invariant and the fibers. When the commit throws, both roots stay. Otherwise the work-in-progress root becomes current, `wipRoot` is cleared and `deletions` is empty. |
| WorkLoop.WorkSlice | src/index.tsx:227-244 | A slice yields exactly when a cursor is left after its units. |
| WorkLoop.WorkSliceKeeps | src/index.tsx:227-244 | A slice keeps the invariant and commits at most once. It either yields with a cursor and both roots unchanged, or ends the pass with no cursor, and on success the old `wipRoot` is current. |
| WorkLoop.SliceAfterYield | src/index.tsx:243 | Yielding changes nothing: a slice after a yielded slice ends exactly as one slice with both budgets would. |
| WorkLoop.ScheduleIsOneSlice | src/index.tsx:227-244 | However the host cuts the work into slices, the final state, outcome and performed fibers are those of one uninterrupted slice with the same total budget. So a pass commits once, in its last slice. |
| WorkLoop.ScheduleKeeps | src/index.tsx:227-244 | The pass the host drives keeps the invariant, whatever the budgets. |
| Runtime.Session.constructor | src/index.tsx:72-75 | A fresh session has no fibers, no cursor, no roots, nothing queued for deletion and no DOM calls, and satisfies the invariant. |
| Runtime.Session.RunPass | src/index.tsx:106-133 | The `forEach` over a props object's keys appends exactly the calls of `PassOps` to the log. |
| Runtime.Session.CreateDom | src/index.tsx:34-55 | Appends exactly `createDOM`'s calls to the log, whose shape `Host.CreateDomShape` gives. |
| Runtime.Session.UpdateDom | src/index.tsx:100-134 | Appends exactly `updateDom`'s calls and reports whether it threw, as `Commit.UpdateDom` says. |
| Runtime.Session.CommitWork | src/index.tsx:136-153 | The recursive `commitWork` with its children loop appends exactly the calls of `Commit.CommitWork`, and throws exactly when it does. |
| Runtime.Session.CommitOwn | src/index.tsx:142-151 | The parent climb loop and the append, or the update, of a tagged fiber issue exactly the calls of `Commit.CommitOwn`. |
| Runtime.Session.RemoveDeletions | src/index.tsx:79-81 | The removal loop issues exactly the calls of `Removals` over the whole queue, and throws exactly when they do. |
| Runtime.Session.CommitRoot | src/index.tsx:77-86 | Leaves the log, `deletions` and the thrown flag as `Commit.CommitRoot` gives them. |
| Runtime.Session.ExpandUnit | src/index.tsx:157-163 | Leaves the arena, the log and the node count as `UnitOfWork.Expand` gives them. |
| Runtime.Session.LinkChildren | src/index.tsx:169-172 | The linking loop leaves the arena as `Reconcile.Link` gives it. |
| Runtime.Session.ReconcileChildren | src/index.tsx:174-208 | The two-cursor `while` loop, from the alternate's first child and the fiber's first child, leaves the arena and `deletions` as `Reconcile.ReconcileLoop` gives them. |
| Runtime.Session.NextUnitOf | src/index.tsx:210-224 | The `while (true)` climb returns `UnitOfWork.NextUnit`, whose choice `NextUnitOrder` states. |
| Runtime.Session.PrepareUnit | src/index.tsx:157-172 | Leaves the arena, the log and the node count as `UnitOfWork.Prepare` gives them. |
| Runtime.Session.PerformUnitOfWork | src/index.tsx:155-225 | Leaves the arena, `deletions`, the log and the node count, and returns the next unit, as `UnitOfWork.Perform` gives them. |
| Runtime.Session.StepUnit | src/index.tsx:231 | The session after one unit is `UnitOfWork.Step` of the session before. |
| Runtime.Session.Render | src/index.tsx:58-70 | The session after `render` is `WorkLoop.Render` of the session before, and it keeps the invariant. |
| Runtime.Session.WorkLoop | src/index.tsx:227-244 | The loop with its `shouldYield` flag, followed by the commit and the root swap, leaves the session and returns the outcome that `WorkLoop.WorkSlice` gives, and keeps the invariant. |

## Left out

- The scheduler: `requestIdleCallback` and `deadline.timeRemaining()` are replaced by a budget of units per slice. `shouldYield` becomes `count >= budget` after each unit, and a budget of 0 still performs one unit. `WorkLoop.Schedule` stands for the host calling the loop again after a yield.
- Runtime.Session.WorkLoop, Render, StepUnit and the other `Session` methods state their effect with `old(...)`. They are tied to the specification functions, and the properties are proved about those functions.
- Element objects are not shared between renders. A fiber keeps its element children as values, and each is turned into a fresh fiber when its parent is performed (`Fibers.Materialise`). The source reuses the element objects themselves as fibers, so an element object rendered twice would be one object with two histories; the model does not capture that aliasing.
- `children` that are arrays, `null` (for which `typeof` gives `"object"`) or `undefined` are not modelled. A child is either an element object or a primitive.
- A function component that returns something other than an element object is not modelled: the component table maps props to one element.
- The key order of `Object.keys` is the insertion order of the props list. The reordering of integer-like keys by JavaScript is not modelled.
- `toLowerCase` is modelled on ASCII letters only.
- `useState`, the `console.log` calls and the demo code at the end of both files are not modelled. The `Didact` object is only a namespace.
- A `removeChild` of a node that is not a child of the given parent (a DOM `NotFoundError`) is not modelled. The removal is modelled as succeeding whenever both nodes exist.
- Commit.UpdateDom: when the alternate has no node, the trace states only whether the first call throws (it throws when either props object has a key other than `children`). It does not issue the calls on an undefined node.
- The legacy `document.createElement` called with a function type is modelled as a throw (`LegacyRender.RenderThrows`). The host's behaviour for other invalid tag names is not modelled.
- Creating DOM nodes, listeners and property assignments are host calls in a log, not a DOM tree. `Made(n)` names the n-th node created.
- The global visiting order of the work loop (pre-order over the whole fiber tree) is stated one unit at a time (`UnitOfWork.NextUnitOrder`), not as one order over a whole pass.

### Where the model follows the code rather than the specification

- Reconciliation is positional: old and new children are paired by index. There is no key-based matching.
- No fiber is ever tagged DELETION. Orphaned old fibers are only queued in `deletions`.
- `updateDom` clears every old plain prop and then sets every new one. It is not a minimal diff.
- `createDOM` runs during the render phase (`performUnitOfWork`), not during the commit.
- `commitRoot` appends the top node to the root node once more after `commitWork` has already placed it.
- `render` does not reset `deletions`.
- While the root has no child fiber, `commitRoot` calls `commitWork` on the untouched element, which has no effect tag, so nothing is committed or appended.
- A thrown `TypeError` is modelled as an outcome (`Threw`). The call log up to the throw is kept, and later state changes of that call do not happen.
