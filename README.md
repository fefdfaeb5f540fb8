# Verified models of small C cores: fan control, containers, sorts, strings and allocators

This project models, in Dafny, the sequential cores of a collection of short C
programs. It proves what each core computes. One Dafny module corresponds to
each C file:

- **Fan control** (`FanControl`, `FanHw16`, `FanHw28`). The coordinator's
  temperature-to-duty mapping `temp2speed`, `FAN_init`, the per-message slot
  update of the receive loop, and `timer_handler`. The handler folds every
  slot's speed into `max_speed` and commands the fans. Also modelled: the two
  `general_set_speed` duty-to-PWM conversions (16-bit and 28-bit), their
  `general_read_speed` companions, and the constant `general_fan_list` table.
- **Card deck** (`CardDeck`). The take-home exercise deals a deck round-robin
  onto 3, 4 or 5 piles, each card going on top, then stacks the piles back into
  a deck. It repeats until the deck is back in order.
- **Containers kept in place**:
  - the 24-cell ring buffer (`RingBuffer`);
  - the linked queue with a capacity (`LinkedQueue`);
  - the array stack (`ArrayStack`);
  - the two array max-heaps (`BinaryHeap`, `MaxHeap2`, sharing `HeapSpec`);
  - the 20-bucket chained hash table (`ChainedHash`);
  - the sorted timer list with its free list (`TimerList`);
  - the 10-bin timing wheel (`TimerWheel`);
  - the block memory pool (`MemoryPool`).
- **Algorithms**:
  - merge sort, quicksort and insertion sort on int arrays (`MergeSort`,
    `QuickSort`, `InsertionSort`, sharing `SortSpec`);
  - the two integer-to-text conversions `itoa` and `myitoa` (`Itoa`, `MyItoa`,
    sharing the reference text `DigitText`);
  - `strstr` (`StrStr`);
  - the 32-bit byte swap (`EndianSwap`);
  - the direction-choosing `myMemcpy` (`MemCopy`).
- **ATM state machine** (`AtmStateMachine`). The state/event switch of `main`
  becomes a step function, and its input loop a fold over an event list.
- **Aligned allocation** (`AlignMask`, `MemalignV2`, `MemalignNew`,
  `EndianessAlign`). The over-allocate-and-mask address arithmetic, with the
  raw pointer kept in the word below the aligned address. `EndianessAlign`
  models `endianess/endianess.c`, which holds an aligned allocator.

## How the model is built

- Code that updates state in place becomes a class or an array method:
  - linked lists become `seq` fields that the methods reassign;
  - fixed buffers stay `array`s;
  - the sorts work on the array in place.
- Each such method is proved against a function over the old contents. The
  properties the source promises are lemmas about those functions: sortedness
  and permutation, heap order, FIFO and LIFO order, the timer list's order,
  round trips of text back to numbers, and the error returns.
- Pure code becomes functions and lemmas:
  - `temp2speed`, whose temperature is a `real` and whose `(int)` cast truncates;
  - the PWM conversions, with `uint16_t` wrap-around written out;
  - the byte swap, on `bv32`;
  - the state machine step;
  - the mask arithmetic.
- Addresses are unbounded naturals and a pointer is 8 bytes.
- `malloc`, `free`, `realloc`, timer callbacks and hardware registers have no
  code here:
  - the raw address `malloc` would return is a parameter;
  - a freed address is recorded in a list;
  - a pool block is a flag saying whether its pointer is NULL;
  - what a timer callback returns is a function parameter.

For each of the five bugs listed under "## Findings", the model holds both
versions:

- the code as written, with a lemma that exhibits the wrong result on a
  concrete input;
- the evidently intended code, with its property proved, which the rest of
  the model uses.

Three smaller slips are modelled only in their intended form, and
"## Left out" names them: the missing `return` of `create_Q`, the
uninitialised loop index of `init_time_wheel` and the `next` pointer that
`addToDeckTail` leaves unset.

`fan_control_server.c` does not compile as written. Its `Fans[i]->`, `Fan[i]`
and `module_msg->` are read as the evident field accesses on the `Fans` array
and the received message. The model of the coordinator then does what the
code does:

- a message with `0 < module_id < MAX_MODULE_NUM` stores `temp2speed` of its
  reading in that slot, and any other message is dropped;
- the handler folds the stored speeds into a `max_speed` that is never reset,
  so it never decreases;
- the ramp is `(int)(temp - 20) * 2` with the cast applied before the multiply,
  so 45.9 degrees gives 50.

Other places where the comments and the code differ, where the model again
follows the code:

- `itoa`'s comment calls a negative value in another base "unsigned", but the
  code prints its magnitude.
- `strstr` returns NULL for an empty pattern, unlike the C library's `strstr`.


## Model

| member | source | states |
|---|---|---|
| FanControl.ToU8 | Interview/Company/intuitive/fan_control.h:57-58 | a value stored into a `uint8_t` field lies in [0, 256) and is unchanged when it already fits, so `-1` is kept as 255 |
| FanControl.Temp2Speed | Interview/Company/intuitive/fan_control_server.c:50-58 | the duty `temp2speed` returns is always within [0, 100] |
| FanControl.Temp2SpeedCold | Interview/Company/intuitive/fan_control_server.c:51-52 | every temperature up to 20 degrees gives duty 0 |
| FanControl.Temp2SpeedHot | Interview/Company/intuitive/fan_control_server.c:53-54 | every temperature from 70 degrees on gives duty 100 |
| FanControl.Temp2SpeedRamp | Interview/Company/intuitive/fan_control_server.c:55-57 | between 20 and 70 degrees the duty is twice the truncated `temp_val - 20`, so it is even and at most 98 |
| FanControl.Temp2SpeedExamples | Interview/Company/intuitive/fan_control_server.c:50-58 | 45 and 45.9 degrees both give 50; 20 gives 0, 70 gives 100 and 69.99 gives 98 |
| FanControl.Temp2SpeedMonotone | Interview/Company/intuitive/fan_control_server.c:50-58 | a higher temperature never gives a lower duty |
| FanControl.MaxSpeed | Interview/Company/intuitive/fan_control_server.c:75-77 | the folded maximum is at least the old `max_speed` and every slot's `current_spd`, and equals one of them |
| FanControl.Broadcast | Interview/Company/intuitive/fan_control_server.c:79-83 | one `set_speed` call per commanded slot, in slot order, each with the same PWM value and that slot's `wt_reg` |
| FanControl.CommandedAsWrittenIsEverySlot | Interview/Company/intuitive/fan_control_server.c:80 | with `module_id` a `uint8_t` the test `-1 != module_id` holds for every slot, so the shipped handler commands all ten slots |
| FanControl.CommandedExactly | Interview/Company/intuitive/fan_control_server.c:80 | the intended test commands exactly the slots whose stored id is not the sentinel byte, each once, in increasing order |
| FanControl.AsWrittenCallsNullCallback | Interview/Company/intuitive/fan_control_server.c:40-45 | after `FAN_init(3)` slot 3 holds a NULL `set_speed` and yet the shipped handler commands it |
| FanControl.CommandsCoverCallbacks | Interview/Company/intuitive/fan_control_server.c:79-83 | when the sentinel marks exactly the slots with a NULL callback, every slot with `general_set_speed` receives a command |
| FanControl.SendCommands | Interview/Company/intuitive/fan_control_server.c:79-83 | the intended broadcast loop: it commands exactly the non-sentinel slots, in order, each with the given PWM value and its own `wt_reg` |
| FanControl.FanGroup.constructor | Interview/Company/intuitive/fan_control.h:65-69 | the zero-initialised global group: `fan_num` and `max_speed` 0, and `MAX_FAN_NUM` slots with id 0, speed 0, registers 0 and NULL callbacks; `FAN_init` must run before the group is consistent |
| FanControl.FanGroup.FanInit | Interview/Company/intuitive/fan_control_server.c:19-48 | `fan_num` and `max_speed = 0` are set; slot i below `fan_num` gets id i and the general callbacks, every other slot the sentinel and NULL callbacks; every speed starts at 0 |
| FanControl.FanGroup.ReceiveTemperature | Interview/Company/intuitive/fan_control_server.c:192-195 | a message is accepted exactly when `0 < module_id < MAX_MODULE_NUM`; then only that slot's `current_spd` changes, to `temp2speed` of the reading, and otherwise nothing changes |
| FanControl.FanGroup.AggregateMax | Interview/Company/intuitive/fan_control_server.c:75-77 | `max_speed` becomes the maximum of its old value and every slot's speed; it never decreases |
| FanControl.FanGroup.TimerHandlerAsWritten | Interview/Company/intuitive/fan_control_server.c:75-83 | the shipped handler: the maximum as above, then a command to every one of the ten slots |
| FanControl.FanGroup.TimerHandler | Interview/Company/intuitive/fan_control_server.c:75-83 | the corrected handler: the maximum as above, then one command per non-sentinel slot with `max_speed`; every slot with a real callback is commanded and no NULL callback is |
| FanHw16.Step | Interview/Company/intuitive/fan_hw.h:63-71 | the 16-bit step `0xffff / 100` is 655 |
| FanHw16.PwmCounts | Interview/Company/intuitive/fan_hw.h:64-71 | the value written is below 2^16, and for a duty of at most 100 it is exactly duty times 655, at most 65500 |
| FanHw16.PwmCountsWraps | Interview/Company/intuitive/fan_hw.h:64-71 | larger duties wrap in the `uint16_t` operand and result: 101 gives 619 and 65536 gives 0 |
| FanHw16.PwmCountsMonotone | Interview/Company/intuitive/fan_hw.h:71 | duty 0 gives 0 and the conversion is non-decreasing on [0, 100] |
| FanHw16.SetSpeed | Interview/Company/intuitive/fan_hw.h:60-78 | `general_set_speed` always returns 0, targets the fan's write register and writes the converted value |
| FanHw16.ReadSpeed | Interview/Company/intuitive/fan_hw.h:49-58 | `general_read_speed` always returns 0 and, with `READW` empty, leaves `*value` as it was |
| FanHw16.GeneralFanList | Interview/Company/intuitive/fan_hw.h:26-47 | `general_fan_list` has 20 entries from "General_vendor", each wired to `general_read_speed` and `general_set_speed`; the second ten repeat the first ten |
| FanHw28.Step | Interview/Company/intuitive/fan_hw.c:22-29 | the 28-bit step `0xfffffff / 100` is 2684354 |
| FanHw28.PwmCounts | Interview/Company/intuitive/fan_hw.c:19-30 | the value is exactly duty times 2684354 with no 32-bit overflow for any `uint8_t` duty (at most 684510270), and within `0x0fffffff` for duty at most 100 |
| FanHw28.FullDuty | Interview/Company/intuitive/fan_hw.c:29-30 | duty 100 gives 268435400 and duty 0 gives 0 |
| FanHw28.PwmCountsStrictlyIncreasing | Interview/Company/intuitive/fan_hw.c:30 | a larger duty always gives a larger value |
| FanHw28.SetSpeed | Interview/Company/intuitive/fan_hw.c:19-37 | `general_set_speed` always returns 0, targets the fan's write register and writes duty times 2684354 |
| FanHw28.ReadSpeed | Interview/Company/intuitive/fan_hw.c:8-17 | `general_read_speed` always returns 0 and leaves `*value` as it was |
| CardDeck.Cards | Interview/Company/Apple/TakeHomeQ1.c:137-141 | the real cards of a list in order: never longer than the list and never the -1 value |
| CardDeck.PushAsWrittenOnEmpty | Interview/Company/Apple/TakeHomeQ1.c:114-120 | pushing onto an empty pile as written leaves the card whose `next` was never set on top of whatever that pointer reaches; the intended push leaves the card alone |
| CardDeck.NextIsMod | Interview/Company/Apple/TakeHomeQ1.c:144 | the model's next pile index is `(pileInd + 1) % pilesInUse` |
| CardDeck.Deal | Interview/Company/Apple/TakeHomeQ1.c:132-146 | dealing keeps each pile either its placeholder alone or real cards only |
| CardDeck.PileCount | Interview/Company/Apple/TakeHomeQ1.c:24 | every round deals onto between 1 and `MAX_TOTAL_PILES` piles |
| CardDeck.PileCountCycles | Interview/Company/Apple/TakeHomeQ1.c:254-267 | round r uses `pileNumberTable[r % 3]`, so the pile counts cycle 3, 4, 5 |
| CardDeck.ConsecutiveIsOrder | Interview/Company/Apple/TakeHomeQ1.c:201-215 | behind a dummy head, the decks `checkOrder` accepts are exactly 0, 1, ..., n - 1 in order |
| CardDeck.DealPile | Interview/Company/Apple/TakeHomeQ1.c:132-146 | after `distribute`, pile j is its old contents with the cards picked for it pushed on in deal order |
| CardDeck.PicksByPosition | Interview/Company/Apple/TakeHomeQ1.c:137-145 | the cards picked for pile j are exactly those at real-card positions k with k mod p = j: the k-th real card goes to pile k mod p |
| CardDeck.PushAllOnEmpty | Interview/Company/Apple/TakeHomeQ1.c:114-124 | pushing cards one by one onto an empty pile leaves them in reverse order, or the placeholder when there are none |
| CardDeck.PushAllOnCards | Interview/Company/Apple/TakeHomeQ1.c:122-123 | pushing cards onto a pile that holds cards puts them on top in reverse order |
| CardDeck.DistributeFromEmpty | Interview/Company/Apple/TakeHomeQ1.c:132-146 | from empty piles, pile j ends up with the cards at positions k mod p = j in reverse deal order, or its placeholder when there are none; piles from p on stay empty |
| CardDeck.DealPermutes | Interview/Company/Apple/TakeHomeQ1.c:132-146 | the real cards on the first p piles after `distribute` are those before plus the deck's real cards, as multisets |
| CardDeck.PushAddsCard | Interview/Company/Apple/TakeHomeQ1.c:114-124 | `addToPileFront` adds exactly the one card to the pile's multiset of real cards |
| CardDeck.RoundPermutes | Interview/Company/Apple/TakeHomeQ1.c:255-257 | one round (`distribute` then `makeDeck`) permutes the deck's real cards |
| CardDeck.EmptyHoldsNoCards | Interview/Company/Apple/TakeHomeQ1.c:53-59 | reset piles hold no real card |
| CardDeck.RoundLength | Interview/Company/Apple/TakeHomeQ1.c:255-257 | with at least as many cards as piles, the new deck is a dummy head and the same number of cards, with no placeholder among them |
| CardDeck.RoundShortOfCards | Interview/Company/Apple/TakeHomeQ1.c:93-107 | with fewer cards than piles, an empty pile's placeholder is copied into the new deck |
| CardDeck.LastPileEmpty | Interview/Company/Apple/TakeHomeQ1.c:132-146 | with fewer cards than piles, the last pile receives no card |
| CardDeck.CardCountKept | Interview/Company/Apple/TakeHomeQ1.c:253-268 | no number of rounds changes how many real cards the deck holds |
| CardDeck.FewCardsNeverInOrder | Interview/Company/Apple/TakeHomeQ1.c:253-268 | with fewer than 3 cards the deck is not in order after any round, so the loop of `main` never ends |
| CardDeck.ThreeCardsOneRound | Interview/Company/Apple/TakeHomeQ1.c:253-268 | three cards are back in order after one round on three piles |
| CardDeck.Table.constructor | Interview/Company/Apple/TakeHomeQ1.c:230-234 | every pile starts as its placeholder card |
| CardDeck.Table.ResetPiles | Interview/Company/Apple/TakeHomeQ1.c:53-59 | `resetPiles` returns every pile to the placeholder state that `addToPileFront` tests for |
| CardDeck.Table.AddToPileFront | Interview/Company/Apple/TakeHomeQ1.c:114-124 | only pile i changes, to the card pushed on top, replacing the placeholder of an empty pile |
| CardDeck.Table.Distribute | Interview/Company/Apple/TakeHomeQ1.c:132-146 | the piles become the round-robin deal of the deck's real cards from pile 0 on |
| CardDeck.Table.MakeDeck | Interview/Company/Apple/TakeHomeQ1.c:93-107 | the new deck is a dummy head followed by pile 0, pile 1, ..., pile `pilesInUse - 1`, each from its top card down |
| CardDeck.AddToDeckTail | Interview/Company/Apple/TakeHomeQ1.c:66-85 | the pile's cards are appended after the deck's last node, top card first |
| CardDeck.AddToDeckTail2 | Interview/Company/Apple/TakeHomeQ1.c:154-171 | a deck that is still the dummy is replaced by the card alone; otherwise the card is appended |
| CardDeck.InitialDeck | Interview/Company/Apple/TakeHomeQ1.c:226-239 | the first deck is 0, 1, ..., numCards - 1, the first card replacing the dummy; with no cards it stays the dummy |
| CardDeck.CheckOrder | Interview/Company/Apple/TakeHomeQ1.c:201-215 | `checkOrder` is true exactly when each value is one more than the one before |
| CardDeck.Play | Interview/Company/Apple/TakeHomeQ1.c:244-268 | within the round bound, the round count returned is the first after which the deck is in order; every earlier round leaves it out of order |
| CardDeck.PlayRound | Interview/Company/Apple/TakeHomeQ1.c:255-262 | one loop pass yields the round's deck and leaves the piles reset |
| RingBuffer.WindowLength | Data_Struct_Implementation/circularRingBuffer/ring_buffer.c:17-31 | the window between tail and head holds `(head - tail) mod 24` values, never 24; it is empty exactly when head equals tail and holds 23 exactly when `(head + 1) % 24 == tail` |
| RingBuffer.WindowPop | Data_Struct_Implementation/circularRingBuffer/ring_buffer.c:49-50 | the oldest stored value is the cell at the tail, and advancing the tail drops exactly that value |
| RingBuffer.WindowPush | Data_Struct_Implementation/circularRingBuffer/ring_buffer.c:38-39 | writing at the head and advancing it appends exactly the written value |
| RingBuffer.Ring.constructor | Data_Struct_Implementation/circularRingBuffer/ring_buffer.c:8-10 | the static buffer and indices start at zero, holding nothing |
| RingBuffer.Ring.RingBufferInit | Data_Struct_Implementation/circularRingBuffer/ring_buffer.c:12-15 | both indices become 0 and the buffer holds nothing |
| RingBuffer.Ring.IsBufferFull | Data_Struct_Implementation/circularRingBuffer/ring_buffer.c:17-23 | returns `BUFFER_IS_FULL` exactly when `(headIdx + 1) % 24 == tailIdx`, which is exactly when 23 values are stored |
| RingBuffer.Ring.IsBufferEmpty | Data_Struct_Implementation/circularRingBuffer/ring_buffer.c:25-31 | returns `BUFFER_IS_EMPTY` exactly when `headIdx == tailIdx`, which is exactly when nothing is stored |
| RingBuffer.Ring.WriteToBuffer | Data_Struct_Implementation/circularRingBuffer/ring_buffer.c:33-42 | fails exactly on a full buffer and then changes nothing; otherwise only `ringBuffer[headIdx]` and `headIdx` change, the head staying below 24, and the value is appended |
| RingBuffer.Ring.ReadFromBuffer | Data_Struct_Implementation/circularRingBuffer/ring_buffer.c:44-53 | fails exactly on an empty buffer and leaves `*data` and the tail alone; otherwise `*data` is the oldest value, only the tail moves and that value is removed |
| RingBuffer.FifoScenario | Data_Struct_Implementation/circularRingBuffer/ring_buffer.c:33-53 | after init, writing x then y and reading twice yields x then y |
| LinkedQueue.Queue.constructor | Data_Struct_Implementation/queue/queue_advance.c:21-27 | a queue with the given capacity, size 0 and no nodes |
| LinkedQueue.CreateQ | Data_Struct_Implementation/queue/queue_advance.c:17-28 | NULL exactly for a size of at most 0; otherwise a fresh empty queue whose `cap` is the size |
| LinkedQueue.PushQ | Data_Struct_Implementation/queue/queue_advance.c:30-53 | returns -1 exactly for a NULL or full queue, and then changes nothing; otherwise returns 0, the value goes in at the back and `size` goes up by one, staying within `cap` |
| LinkedQueue.Front | Data_Struct_Implementation/queue/queue_advance.c:55-60 | NULL for a NULL or empty queue, otherwise the oldest value |
| LinkedQueue.Back | Data_Struct_Implementation/queue/queue_advance.c:62-67 | NULL for a NULL queue, otherwise the newest value; once `pop` has emptied the queue, `tail` still points at the freed node |
| LinkedQueue.Pop | Data_Struct_Implementation/queue/queue_advance.c:69-80 | on a non-empty queue (no emptiness check exists) the oldest value is removed and `size` goes down by one; the last pop leaves `tail` dangling |
| LinkedQueue.IsEmpty | Data_Struct_Implementation/queue/queue_advance.c:82-87 | -1 for NULL, otherwise 1 exactly when the queue is empty and 0 exactly when it is not |
| LinkedQueue.Size | Data_Struct_Implementation/queue/queue_advance.c:89-94 | -1 for NULL, otherwise the number of values, between 0 and `cap` |
| LinkedQueue.DriverScenario | Data_Struct_Implementation/queue/queue_advance.c:96-120 | six pushes and two pops on a queue of capacity 10 leave 3 at the front, 6 at the back and size 4 |
| ArrayStack.Stack.constructor | Data_Struct_Implementation/stack/stack.c:11-26 | an empty stack (`topIdx == -1`) over a fresh buffer of `capacity` ints |
| ArrayStack.Stack.IsFull | Data_Struct_Implementation/stack/stack.c:28-30 | true exactly when `topIdx >= capacity - 1`, which is exactly when `capacity` values are stacked |
| ArrayStack.Stack.IsEmpty | Data_Struct_Implementation/stack/stack.c:32-34 | true exactly when `topIdx == -1`, which is exactly when nothing is stacked |
| ArrayStack.Stack.Push | Data_Struct_Implementation/stack/stack.c:36-42 | on a full stack nothing changes; otherwise the value goes on top and `topIdx` goes up by one, staying within [-1, capacity - 1] |
| ArrayStack.Stack.Pop | Data_Struct_Implementation/stack/stack.c:44-51 | INT_MIN and no change on an empty stack; otherwise the top value is returned and removed |
| ArrayStack.Stack.Top | Data_Struct_Implementation/stack/stack.c:53-59 | INT_MIN on an empty stack, otherwise the value `pop` would return, changing nothing |
| ArrayStack.PushThenPop | Data_Struct_Implementation/stack/stack.c:36-51 | with room on the stack, a push followed by a pop returns the pushed value and restores the stack |
| ArrayStack.DriverScenario | Data_Struct_Implementation/stack/stack.c:61-70 | after pushing 10, 20, 30 onto a stack of ten, `top` sees 30 and the three pops see 30, 20, 10, last in first out |
| HeapSpec.Parent | Data_Struct_Implementation/binaryHeap/binaryHeap.c:36-38 | with C's truncating division the root is its own parent, and every other index is a left or right child of a smaller parent |
| HeapSpec.ChildrenParent | Data_Struct_Implementation/binaryHeap/binaryHeap.c:36-48 | `parent(left_child(i)) == parent(right_child(i)) == i`, and the right child directly follows the left one |
| HeapSpec.RootIsMax | Data_Struct_Implementation/binaryHeap/binaryHeap.c:108 | in a max-heap the root is at least every element |
| HeapSpec.RootIsMaxOf | Data_Struct_Implementation/binaryHeap/binaryHeap.c:108 | the root of a non-empty heap is a maximum of its multiset of elements |
| HeapSpec.RemoveRoot | Data_Struct_Implementation/binaryHeap/binaryHeap.c:108-110 | moving the last element to the root leaves a heap broken only at the root, holding the old elements less one copy of the root |
| HeapSpec.PlaceAtEnd | Data_Struct_Implementation/binaryHeap/binaryHeap.c:88-89 | appending a value to a heap leaves a heap broken only at the new cell, holding one more copy of that value |
| HeapSpec.SwapRootToEnd | Data_Struct_Implementation/binaryHeap/binaryHeap_2.c:86-88 | swapping the root with the last element and dropping it leaves a heap broken only at the root |
| HeapSpec.SwapRootToEndElements | Data_Struct_Implementation/binaryHeap/binaryHeap_2.c:86-88 | after that swap the first n - 1 cells hold the old elements less one copy of the root, which now sits at index n - 1 |
| HeapSpec.SwapPrefix | Data_Struct_Implementation/binaryHeap/binaryHeap_2.c:11-15 | exchanging two cells inside the first n only permutes those n cells and leaves the rest alone |
| HeapSpec.SiftDownStep | Data_Struct_Implementation/binaryHeap/binaryHeap.c:61-77 | swapping a node with its largest child moves the only violation down to that child |
| HeapSpec.SiftDownDone | Data_Struct_Implementation/binaryHeap/binaryHeap.c:73 | when a node is at least both children and all is in order below it, the whole range is a heap |
| HeapSpec.SiftUpStep | Data_Struct_Implementation/binaryHeap/binaryHeap.c:91-96 | swapping a node with a smaller parent moves the only violation up to the parent |
| HeapSpec.SiftUpDone | Data_Struct_Implementation/binaryHeap/binaryHeap.c:91 | when the node reached is the root or at most its parent, the whole range is a heap |
| BinaryHeap.ToU32 | Data_Struct_Implementation/binaryHeap/binaryHeap.c:100 | the `uint32_t` return is the int modulo 2^32, unchanged for values already in range |
| BinaryHeap.EmptyPopIsIntMin | Data_Struct_Implementation/binaryHeap/binaryHeap.c:105 | INT_MIN as `uint32_t` is 2^31 |
| BinaryHeap.PriorityQueue.constructor | Data_Struct_Implementation/binaryHeap/binaryHeap.c:18-34 | an empty queue with `capacity` cells |
| BinaryHeap.PriorityQueue.SwapCells | Data_Struct_Implementation/binaryHeap/binaryHeap.c:74-76 | the three-assignment exchange swaps exactly two cells |
| BinaryHeap.PriorityQueue.Heapify | Data_Struct_Implementation/binaryHeap/binaryHeap.c:50-79 | when only `eleIdx` may be below a child, `heapify` restores the heap, only permuting the queued elements and leaving the cells behind them alone |
| BinaryHeap.PriorityQueue.SwapDown | Data_Struct_Implementation/binaryHeap/binaryHeap.c:73-78 | one swap with the largest child and the recursive call restore the heap |
| BinaryHeap.PriorityQueue.Insert | Data_Struct_Implementation/binaryHeap/binaryHeap.c:81-98 | a full queue is unchanged; otherwise `curIdx` goes up by one, the value joins the elements and the heap property holds |
| BinaryHeap.PriorityQueue.SiftUp | Data_Struct_Implementation/binaryHeap/binaryHeap.c:91-97 | the sift-up loop restores the heap, only permuting the elements |
| BinaryHeap.PriorityQueue.SwapUp | Data_Struct_Implementation/binaryHeap/binaryHeap.c:92-96 | one loop pass moves the new value into its parent's cell, moving the violation up |
| BinaryHeap.PriorityQueue.Pop | Data_Struct_Implementation/binaryHeap/binaryHeap.c:100-115 | every result is the stored `int` converted to the `uint32_t` return type, its value modulo 2^32: on an empty queue INT_MIN, that is 2^31, and nothing removed; otherwise the converted maximum, with exactly one copy of the maximum removed, `curIdx` down by one and the heap property kept |
| MaxHeap2.TargetAsWritten | Data_Struct_Implementation/binaryHeap/binaryHeap_2.c:55-59 | the shipped choice is the node itself or a child larger than the node; both children are compared with `data[index]`, so the right child wins even over a larger left child |
| MaxHeap2.Target | Data_Struct_Implementation/binaryHeap/binaryHeap_2.c:55-59 | the intended choice, comparing the right child with `data[target_index]`: the node itself if no child is larger, otherwise a child at least as large as every child of the node |
| MaxHeap2.GetMaxF | Data_Struct_Implementation/binaryHeap/binaryHeap_2.c:31-38 | -1 on an empty heap, otherwise one of the stored elements |
| MaxHeap2.GetMaxIsLargest | Data_Struct_Implementation/binaryHeap/binaryHeap_2.c:37 | on a non-empty heap `get_max` returns a maximum of the elements |
| MaxHeap2.UpHeapifyRestores | Data_Struct_Implementation/binaryHeap/binaryHeap_2.c:40-48 | after an append that breaks the heap only at the new cell, `up_heapify` restores it, only permuting the first n cells and leaving the rest alone |
| MaxHeap2.DownHeapifyRestores | Data_Struct_Implementation/binaryHeap/binaryHeap_2.c:50-66 | with the intended comparison, `down_heapify` restores a heap broken only at `index` |
| MaxHeap2.DownHeapifyPermutes | Data_Struct_Implementation/binaryHeap/binaryHeap_2.c:64-65 | the intended `down_heapify` only permutes the first n cells and leaves the rest alone |
| MaxHeap2.DownHeapifyAsWrittenPermutes | Data_Struct_Implementation/binaryHeap/binaryHeap_2.c:64-65 | the shipped `down_heapify` also only permutes the first n cells |
| MaxHeap2.InsertKeepsHeap | Data_Struct_Implementation/binaryHeap/binaryHeap_2.c:68-80 | inserting into a heap with room yields a heap of one more element, holding one more copy of the value |
| MaxHeap2.PopKeepsHeap | Data_Struct_Implementation/binaryHeap/binaryHeap_2.c:82-94 | with the intended `down_heapify`, pop moves the maximum to index `curIndex - 1` and leaves a heap of the other elements |
| MaxHeap2.PopAsWrittenBreaksHeap | Data_Struct_Implementation/binaryHeap/binaryHeap_2.c:58 | the heap [4, 3, 2, 1] popped as written leaves [2, 3, 1], which is not a heap; the intended pop leaves [3, 1, 2] |
| MaxHeap2.DriverInserts | Data_Struct_Implementation/binaryHeap/binaryHeap_2.c:96-115 | the driver's inserts of 1 to 5 into a heap of five build [5, 4, 2, 1, 3]; the sixth insert fails and changes nothing |
| MaxHeap2.DriverPopsAsWritten | Data_Struct_Implementation/binaryHeap/binaryHeap_2.c:117-136 | the driver's five pops and last insert as written: after the second pop `get_max` sees 2 while 3 is stored |
| MaxHeap2.DriverPopsIntended | Data_Struct_Implementation/binaryHeap/binaryHeap_2.c:117-136 | the same calls with the intended comparison leave 4, 3, 2, 1 at the root in turn |
| MaxHeap2.MaxHeap.constructor | Data_Struct_Implementation/binaryHeap/binaryHeap_2.c:21-29 | an empty heap over `size` cells |
| MaxHeap2.MaxHeap.SwapCells | Data_Struct_Implementation/binaryHeap/binaryHeap_2.c:11-15 | `swap` exchanges exactly two cells |
| MaxHeap2.MaxHeap.GetMax | Data_Struct_Implementation/binaryHeap/binaryHeap_2.c:31-38 | returns -1 when empty and `data[0]` otherwise, as the specification function says |
| MaxHeap2.MaxHeap.UpHeapify | Data_Struct_Implementation/binaryHeap/binaryHeap_2.c:40-48 | the recursive sift-up leaves exactly what the specification function computes |
| MaxHeap2.MaxHeap.DownHeapifyAsWrittenM | Data_Struct_Implementation/binaryHeap/binaryHeap_2.c:50-66 | the shipped sift-down leaves exactly what its as-written specification function computes |
| MaxHeap2.MaxHeap.DownHeapifyM | Data_Struct_Implementation/binaryHeap/binaryHeap_2.c:50-66 | the corrected sift-down leaves exactly what the intended specification function computes |
| MaxHeap2.MaxHeap.Insert | Data_Struct_Implementation/binaryHeap/binaryHeap_2.c:68-80 | returns -1 and changes nothing when full; otherwise returns 0, `curIndex` goes up by one and the array is as the insert function says |
| MaxHeap2.MaxHeap.PopAsWritten | Data_Struct_Implementation/binaryHeap/binaryHeap_2.c:82-94 | returns -1 when empty; otherwise returns 0, `curIndex` goes down by one and the array is the as-written pop |
| MaxHeap2.MaxHeap.Pop | Data_Struct_Implementation/binaryHeap/binaryHeap_2.c:82-94 | the same with the corrected `down_heapify` |
| ChainedHash.HashCode | Data_Struct_Implementation/hashTable/hashTable_chain.c:17-19 | for a non-negative key the bucket is below 20 and congruent to the key modulo 20 |
| ChainedHash.Find | Data_Struct_Implementation/hashTable/hashTable_chain.c:30-34 | the chain walk finds an item of the chain with that key, and finds none exactly when no item has it |
| ChainedHash.RemoveFirst | Data_Struct_Implementation/hashTable/hashTable_chain.c:80-108 | unlinking keeps only items of the chain, changes nothing when the key is absent and removes exactly one item when it is present |
| ChainedHash.FindAfterAppend | Data_Struct_Implementation/hashTable/hashTable_chain.c:58-69 | after an item is appended at the tail, every search that found something still finds the same item, and the new item is found for its own key when that key was absent |
| ChainedHash.FindAfterRemove | Data_Struct_Implementation/hashTable/hashTable_chain.c:72-110 | in a chain with unique keys, after the unlink the key is not found and every other key is found as before |
| ChainedHash.AppendKeepsChainOk | Data_Struct_Implementation/hashTable/hashTable_chain.c:44-69 | appending an item of an absent key that hashes to the bucket keeps the chain well formed: every key hashes there and none repeats |
| ChainedHash.RemoveKeepsChainOk | Data_Struct_Implementation/hashTable/hashTable_chain.c:72-110 | unlinking keeps the chain well formed |
| ChainedHash.RemoveAt | Data_Struct_Implementation/hashTable/hashTable_chain.c:89-105 | unlinking the first node with the key, in the middle by copying its successor over it or at the tail, drops exactly that position and keeps the order of the rest |
| ChainedHash.NoKeyNoRemove | Data_Struct_Implementation/hashTable/hashTable_chain.c:110 | when no node has the key, `delete` leaves the chain as it was |
| ChainedHash.Table.constructor | Data_Struct_Implementation/hashTable/hashTable_chain.c:13 | the zero-initialised bucket array: every bucket empty and no key found |
| ChainedHash.Table.Search | Data_Struct_Implementation/hashTable/hashTable_chain.c:21-38 | `search` returns the stored item of the key, and NULL exactly when no item has that key |
| ChainedHash.Table.Insert | Data_Struct_Implementation/hashTable/hashTable_chain.c:40-70 | a key already present leaves the table unchanged; otherwise the item is appended at the tail of its bucket and is found afterwards; every other key's item is unchanged and keys stay unique |
| ChainedHash.Table.Delete | Data_Struct_Implementation/hashTable/hashTable_chain.c:72-111 | only the key's bucket changes, by unlinking the key's item (front, middle or tail); afterwards the key is not found and every other key keeps its item |
| ChainedHash.DeleteFromChain | Data_Struct_Implementation/hashTable/hashTable_chain.c:80-110 | the front case and the cursor walk of `delete` unlink exactly the first node with the key |
| TimerList.CountUpToBounds | Data_Struct_Implementation/timerList/timer_framework.c:82-88 | the timers before the insertion point fire no later than the new timer and the one at it, if any, fires later |
| TimerList.LaterPastCount | Data_Struct_Implementation/timerList/timer_framework.c:145 | in a list sorted by fire time, every timer past the ones due fires later than the tick |
| TimerList.InsertAtNoDups | Data_Struct_Implementation/timerList/timer_framework.c:80-88 | inserting a node that is not yet listed keeps the list free of duplicates and adds exactly that node |
| TimerList.ArmAddsOne | Data_Struct_Implementation/timerList/timer_framework.c:76-90 | `arm_timer` adds exactly the one node to the active list |
| TimerList.ArmPlacement | Data_Struct_Implementation/timerList/timer_framework.c:82-88 | the new timer goes after every timer firing no later than it, including those with equal fire time, and before every timer firing later |
| TimerList.ArmSorted | Data_Struct_Implementation/timerList/timer_framework.c:76-90 | arming keeps the active list sorted by non-decreasing fire time |
| TimerList.Remove | Data_Struct_Implementation/timerList/timer_framework.c:93-96 | removing a listed node shortens the list by one |
| TimerList.RemoveCutsOut | Data_Struct_Implementation/timerList/timer_framework.c:93-96 | `disarm_timer` cuts out exactly that node and keeps the order of the rest |
| TimerList.CutOutKeeps | Data_Struct_Implementation/timerList/timer_framework.c:93-96 | cutting a node out of a sorted duplicate-free list keeps it sorted and duplicate free, removes exactly that node and leaves it unlisted |
| TimerList.FreeAfterElements | Data_Struct_Implementation/timerList/timer_framework.c:146-147 | the nodes a tick puts back on the free list are the old free list plus exactly the fired nodes whose callback returned `CB_RETURN_FREE_TIMER` |
| TimerList.Freed | Data_Struct_Implementation/timerList/timer_framework.c:147 | a node is freed exactly when it fired and its callback returned `CB_RETURN_FREE_TIMER` |
| TimerList.ArmKeepsOk | Data_Struct_Implementation/timerList/timer_framework.c:76-90 | arming a node on neither list keeps both lists duplicate free and disjoint, and the active list sorted |
| TimerList.CutOutKeepsOk | Data_Struct_Implementation/timerList/timer_framework.c:93-96 | disarming keeps the same shape and leaves the node on neither list |
| TimerList.PushFreeKeepsOk | Data_Struct_Implementation/timerList/timer_framework.c:61-63 | freeing a node on neither list keeps the shape |
| TimerList.PopFreeKeepsOk | Data_Struct_Implementation/timerList/timer_framework.c:66-73 | taking the head of the free list keeps the shape, and that node is then on neither list |
| TimerList.SetKeepsOk | Data_Struct_Implementation/timerList/timer_framework.c:112-114 | rewriting an unarmed node keeps the shape |
| TimerList.TickKeepsOk | Data_Struct_Implementation/timerList/timer_framework.c:144-148 | firing any prefix of the active list and freeing the nodes whose callback asks for it keeps the shape, so no node is ever on both lists |
| TimerList.TimerSystem.constructor | Data_Struct_Implementation/timerList/timer_framework.c:119-138 | after `init_timers` the active list is empty and all ten nodes are free, the last one freed first |
| TimerList.TimerSystem.FreeTimer | Data_Struct_Implementation/timerList/timer_framework.c:61-63 | `free_timer` puts the node at the head of the free list |
| TimerList.TimerSystem.AllocTimer | Data_Struct_Implementation/timerList/timer_framework.c:66-73 | NULL exactly when the free list is empty; otherwise the head of the free list is taken off and then is on neither list |
| TimerList.TimerSystem.SetTimer | Data_Struct_Implementation/timerList/timer_framework.c:101-116 | an unknown timer type returns -1 and leaves the node alone; otherwise returns 0 and the node gets the callback, its data and a fire time of `fire + tick_cnt` modulo 2^64 for `TT_RELATIVE` and `fire` for `TT_ABSOLUTE` |
| TimerList.TimerSystem.ArmTimer | Data_Struct_Implementation/timerList/timer_framework.c:76-90 | the active list becomes the specification's insertion of the node after every timer firing no later than it |
| TimerList.TimerSystem.DisarmTimer | Data_Struct_Implementation/timerList/timer_framework.c:93-96 | exactly that node leaves the active list |
| TimerList.TimerSystem.ClockTick | Data_Struct_Implementation/timerList/timer_framework.c:141-150 | `tick_cnt` goes up by one modulo 2^64; the due timers at the front of the active list fire in list order and leave it; the callback results decide which go back on the free list; every timer left fires after the new tick count |
| TimerList.FireDue | Data_Struct_Implementation/timerList/timer_framework.c:145-148 | the firing loop stops at the first timer not yet due and frees as the callback results say |
| TimerList.FreeThenAlloc | Data_Struct_Implementation/timerList/timer_framework.c:61-73 | the free list is LIFO: a node freed and then allocated is the same node, and the free list is back as it was |
| TimerWheel.CDiv | Data_Struct_Implementation/timerWheel/timer.c:38 | C's `int` division truncating toward zero: Dafny's quotient for a non-negative deadline, and never a positive number of bins for a negative one |
| TimerWheel.CDivSmall | Data_Struct_Implementation/timerWheel/timer.c:38 | a deadline strictly within one granularity of 0, on either side, is 0 bins ahead |
| TimerWheel.SmallDeadlineCurrentBin | Data_Struct_Implementation/timerWheel/timer.c:38-43 | such a deadline, negative ones included, passes the full-turn test and lands in the current bin |
| TimerWheel.BinFor | Data_Struct_Implementation/timerWheel/timer.c:43 | an accepted deadline whose bin index is not negative lands in one of the ten bins |
| TimerWheel.BinOfTick | Data_Struct_Implementation/timerWheel/timer.c:59-70 | the j-th tick after a slot empties one of the ten bins |
| TimerWheel.FiresOnTick | Data_Struct_Implementation/timerWheel/timer.c:43-70 | a handler `deadline / granularity = k` bins ahead is reached on the (k+1)-th tick after installation and on no tick before it |
| TimerWheel.ModDiff | Data_Struct_Implementation/timerWheel/timer.c:69 | fewer than ten steps round the wheel never come back to the same bin |
| TimerWheel.TWheel.constructor | Data_Struct_Implementation/timerWheel/timer.c:24-34 | `init_time_wheel`: the granularity is set, `cur_slot` is 0 and every bin is empty |
| TimerWheel.TWheel.InstallHandler | Data_Struct_Implementation/timerWheel/timer.c:36-57 | a deadline ten or more bins ahead, by C's truncating division, returns -1 and changes nothing; any other deadline, negative ones included, returns 0, and only its bin changes, with the handler appended at the tail |
| TimerWheel.TWheel.Tick | Data_Struct_Implementation/timerWheel/timer.c:59-70 | the handlers of the current bin run in install order and the bin is left empty; every other bin is unchanged; `cur_slot` advances by one modulo 10 |
| TimerWheel.DriverScenario | Data_Struct_Implementation/timerWheel/timer.c:87-103 | the driver's handlers at 4, 4.25 and 4.9 periods all run, in that order, on the fifth tick and none runs before it; the one 12 periods ahead is refused |
| MemoryPool.Advance | Data_Struct_Implementation/memoryPoolAllocator/pool.c:48-50 | the next bump position stays an index inside a block, never moves to an earlier block, and is exactly one element further along than the old one |
| MemoryPool.AdvanceNPos | Data_Struct_Implementation/memoryPoolAllocator/pool.c:48-62 | n allocations from an empty free list move the bump position exactly n elements on |
| MemoryPool.AdvanceDistinct | Data_Struct_Implementation/memoryPoolAllocator/pool.c:48-64 | two different numbers of allocations from the same start reach different (block, index) pairs, so the bump allocator never hands out one element twice |
| MemoryPool.PosInjective | Data_Struct_Implementation/memoryPoolAllocator/pool.c:48-64 | a bump position determines its block and index |
| MemoryPool.SlotInsideBlock | Data_Struct_Implementation/memoryPoolAllocator/pool.c:61-64 | element `used` of a block of `elementSize * blockSize` bytes ends inside that block |
| MemoryPool.Pool.constructor | Data_Struct_Implementation/memoryPoolAllocator/pool.c:10-24 | elements are at least one pointer wide, the bump position is the last index of block -1, the free list is empty, and there is one NULL block entry |
| MemoryPool.Pool.FreeAll | Data_Struct_Implementation/memoryPoolAllocator/pool.c:76-81 | the bump position is reset to the last index of block -1 and the free list emptied, keeping the pool's invariant |
| MemoryPool.Pool.Free | Data_Struct_Implementation/memoryPoolAllocator/pool.c:67-73 | the freed element becomes the head of the free list, in front of the old list |
| MemoryPool.Pool.Malloc | Data_Struct_Implementation/memoryPoolAllocator/pool.c:40-65 | with a non-empty free list its head is returned and popped and nothing else changes; otherwise the bump position advances by one, the block table doubles when the block number reaches its size, old entries are kept and new ones are NULL, the current block is allocated and the element at the new position is returned |
| MemoryPool.Pool.Grow | Data_Struct_Implementation/memoryPoolAllocator/pool.c:53-57 | the block table doubles, with the old entries kept and the new ones NULL |
| MemoryPool.TestPool | Data_Struct_Implementation/memoryPoolAllocator/test.c:8-30 | the first two allocations of a fresh pool are elements 0 and 1 of block 0, so they differ and neither is NULL, as `test_pool` checks; beyond the test, which frees the first and then frees the pool, an allocation after that free returns the freed element again |
| AtmStateMachine.AdvancingEvent | Data_Struct_Implementation/stateMachine/stateMachine.c:54-95 | the one event each state reacts to is one of the five event codes 0 to 4 |
| AtmStateMachine.StepTable | Data_Struct_Implementation/stateMachine/stateMachine.c:54-95 | a state moves, to the next state of the service cycle, exactly when the event is the one its case tests for; any other event, including an out-of-range code, leaves it where it is |
| AtmStateMachine.Transitions | Data_Struct_Implementation/stateMachine/stateMachine.c:22-95 | card insert takes Idle to CardInserted, pin entry to PinEntered, option selection to OptionSelected, amount entry to AmountEntered, and dispatch back to Idle |
| AtmStateMachine.CycleOfFive | Data_Struct_Implementation/stateMachine/stateMachine.c:22-95 | the service cycle passes through five different states and is back at its start after five steps |
| AtmStateMachine.RunAdvancing | Data_Struct_Implementation/stateMachine/stateMachine.c:47-100 | reading the expected event n times in a row walks the machine n steps along the cycle |
| AtmStateMachine.RunSkipsStray | Data_Struct_Implementation/stateMachine/stateMachine.c:47-100 | an event the current state does not expect can be dropped from the input without changing where the run ends |
| MergeSort.Merge | Data_Struct_Implementation/mergeSort/mergesort.c:23-31 | the merged sequence has as many elements as both runs together |
| MergeSort.MergePermutes | Data_Struct_Implementation/mergeSort/mergesort.c:23-31 | the merge holds exactly the elements of both runs |
| MergeSort.MergeSorted | Data_Struct_Implementation/mergeSort/mergesort.c:23-31 | merging two sorted runs gives a sorted sequence |
| MergeSort.MergeOrdered | Data_Struct_Implementation/mergeSort/mergesort.c:24 | when the two runs are already in order, every element of the left one no bigger than any of the right one, the merge is their concatenation: taking the left element on a tie keeps the order stable |
| MergeSort.MergeRuns | Data_Struct_Implementation/mergeSort/mergesort.c:19-31 | the three loops that fill the temporary buffer `arr` produce the merge of the two runs |
| MergeSort.CopyRest | Data_Struct_Implementation/mergeSort/mergesort.c:27-31 | a tail loop appends the rest of a run to the buffer unchanged |
| MergeSort.MergeHelper | Data_Struct_Implementation/mergeSort/mergesort.c:16-35 | cells `[st_a, st_a + size)` are replaced by the merge of the runs `[st_a, st_b)` and `[st_b, st_a + size)`; no other cell changes |
| MergeSort.SortHelper | Data_Struct_Implementation/mergeSort/mergesort.c:37-46 | the inclusive range `[st, end]` ends up sorted and holding the same elements, and no cell outside it changes |
| MergeSort.SortAndMerge | Data_Struct_Implementation/mergeSort/mergesort.c:41-45 | sorting both halves around the middle cell `(end - st) / 2 + st` and merging them sorts the range and changes nothing else |
| MergeSort.SortHalves | Data_Struct_Implementation/mergeSort/mergesort.c:42-43 | the two recursive calls leave `[st, mid]` and `[mid + 1, end]` each sorted, each with its own old elements, and every other cell unchanged |
| MergeSort.MergeSortArray | Data_Struct_Implementation/mergeSort/mergesort.c:48-50 | the first `size` cells end up sorted and a permutation of what they held; an empty array is left alone; the cells past `size` do not change |
| QuickSort.ScanUpStops | Data_Struct_Implementation/quickSort/quicksort.c:33-34 | the first inner loop passes only cells below the pivot, and stops before `right` only at a cell not below it |
| QuickSort.ScanDownStops | Data_Struct_Implementation/quickSort/quicksort.c:36-37 | the second inner loop passes only cells above the pivot, and stops after `left` only at a cell not above it |
| QuickSort.Step | Data_Struct_Implementation/quickSort/quicksort.c:32-41 | one pass of the outer loop keeps the indices within the range, never more than one apart after crossing, and strictly narrows the gap between them |
| QuickSort.StepPermutes | Data_Struct_Implementation/quickSort/quicksort.c:32-41 | one pass only swaps cells, and only cells of `[left, right]` |
| QuickSort.StepBounds | Data_Struct_Implementation/quickSort/quicksort.c:32-41 | after one pass every cell left of `left` is at most the pivot and every cell right of `right` is at least it |
| QuickSort.StepUnmoved | Data_Struct_Implementation/quickSort/quicksort.c:32-41 | an index that never moved leaves the cells unchanged, and then every cell the other index passed is strictly on its side of the pivot |
| QuickSort.Partition | Data_Struct_Implementation/quickSort/quicksort.c:32-42 | the partition loop ends with `left` and `right` inside the range, either on the same cell or crossed by one |
| QuickSort.PartitionFrame | Data_Struct_Implementation/quickSort/quicksort.c:32-42 | the partition loop changes no cell outside `[st, end]` |
| QuickSort.PartitionBounds | Data_Struct_Implementation/quickSort/quicksort.c:32-42 | when the loop ends, cells before `left` are at most the pivot and cells after `right` at least it |
| QuickSort.PartitionUnmoved | Data_Struct_Implementation/quickSort/quicksort.c:32-42 | if `left` never moved nothing was swapped and all later cells exceed the pivot; symmetrically for `right` |
| QuickSort.PartitionPermutes | Data_Struct_Implementation/quickSort/quicksort.c:32-42 | the partition loop only permutes the cells |
| QuickSort.AsWrittenPermutes | Data_Struct_Implementation/quickSort/quicksort.c:22-46 | `sort_helper` as written only permutes the array |
| QuickSort.AsWrittenFrame | Data_Struct_Implementation/quickSort/quicksort.c:22-46 | `sort_helper` as written changes no cell outside `[st, end]` |
| QuickSort.AsWrittenMissesCell | Data_Struct_Implementation/quickSort/quicksort.c:44-45 | `{5, 1, 3, 6, 7}` comes out as `{3, 1, 5, 6, 7}`, which is not sorted: when the indices meet on one cell, both recursive calls skip it |
| QuickSort.SplitProgress | Data_Struct_Implementation/quickSort/quicksort.c:30-45 | the corrected split point leaves both sides non-empty, with every value on the left at most the pivot and every value on the right at least it |
| QuickSort.QuickSortSorts | Data_Struct_Implementation/quickSort/quicksort.c:22-46 | the corrected `sort_helper` sorts `[st, end]`, keeps its elements, and changes nothing else |
| QuickSort.SwapCells | Data_Struct_Implementation/quickSort/quicksort.c:16-20 | `swap` exchanges the two cells and leaves the rest alone |
| QuickSort.PartitionCells | Data_Struct_Implementation/quickSort/quicksort.c:26-42 | the in-place partition loop does what the partition function describes, ending at the same indices |
| QuickSort.PassCells | Data_Struct_Implementation/quickSort/quicksort.c:33-41 | one iteration of the outer loop on the array is one pass of the partition function |
| QuickSort.SortHelper | Data_Struct_Implementation/quickSort/quicksort.c:22-46 | the in-place `sort_helper` computes the as-written recursion |
| QuickSort.SortSidesAsWritten | Data_Struct_Implementation/quickSort/quicksort.c:44-45 | the two recursive calls as written, on `[st, left - 1]` and `[right + 1, end]` |
| QuickSort.PartitionAsWritten | Data_Struct_Implementation/quickSort/quicksort.c:26-42 | the in-place partition leaves indices inside the range from which the as-written recursive calls finish the sort of `[st, end]` |
| QuickSort.QuickSortArray | Data_Struct_Implementation/quickSort/quicksort.c:48-50 | `quicksort` as written is the as-written recursion on `[0, size - 1]` |
| QuickSort.SortHelperFixed | Data_Struct_Implementation/quickSort/quicksort.c:22-46 | the corrected in-place `sort_helper` computes the corrected recursion |
| QuickSort.SortSidesFixed | Data_Struct_Implementation/quickSort/quicksort.c:44-45 | the corrected recursive calls, on `[st, k]` and `[k + 1, end]` |
| QuickSort.PartitionFixed | Data_Struct_Implementation/quickSort/quicksort.c:26-45 | the corrected partition step returns a split point strictly inside the range from which sorting both sides gives the corrected sort |
| QuickSort.QuickSortFixed | Data_Struct_Implementation/quickSort/quicksort.c:48-50 | the corrected `quicksort` leaves the first `size` cells sorted and holding the same elements, and nothing else changes |
| InsertionSort.InsertRightAt | Data_Struct_Implementation/insertionSort/insertionSort.c:13-19 | when the cell before `j` (if any) is at most the value and every cell from `j` on is greater, the value lands at `j` and the cells from `j` on move up by one, so it goes after every equal element |
| InsertionSort.InsertRightPermutes | Data_Struct_Implementation/insertionSort/insertionSort.c:12-19 | inserting adds exactly the new value to the elements of the prefix |
| InsertionSort.InsertRightSorted | Data_Struct_Implementation/insertionSort/insertionSort.c:12-19 | inserting into a sorted prefix keeps it sorted |
| InsertionSort.SortSorts | Data_Struct_Implementation/insertionSort/insertionSort.c:7-21 | the insertion sort of a sequence is sorted and a permutation of it |
| InsertionSort.InsertCell | Data_Struct_Implementation/insertionSort/insertionSort.c:12-19 | one pass of the outer loop shifts the larger cells of `[0, i)` up by one and drops `array[i]` into the gap; the cells after `i` are unchanged |
| InsertionSort.InsertionSortArray | Data_Struct_Implementation/insertionSort/insertionSort.c:7-21 | `insertionSort` leaves the first `size` cells sorted and a permutation of what they held, and does not touch the rest |
| DigitText.DigitChar | Data_Struct_Implementation/atoi_itoa/itoa.c:35-38 | digit values below 10 become '0' to '9', larger ones letters from 'A' on |
| DigitText.DigitRoundTrip | Data_Struct_Implementation/atoi_itoa/itoa.c:35-38 | the digit character reads back as its digit value |
| DigitText.DivIsQuot | Data_Struct_Implementation/atoi_itoa/itoa.c:33-40 | C's `%` and `/` on the non-negative magnitude are the remainder and quotient of repeated subtraction, whose sum `q * base + r` gives the number back |
| DigitText.DigitsRoundTrip | Data_Struct_Implementation/atoi_itoa/itoa.c:31-41 | the digits of a number, read back in its base, give the number |
| DigitText.DigitsAreDigits | Data_Struct_Implementation/atoi_itoa/itoa.c:31-41 | every character written is a digit of the base |
| DigitText.NoLeadingZero | Data_Struct_Implementation/atoi_itoa/itoa.c:31-41 | a non-zero number's text does not start with '0' |
| DigitText.TextRoundTrip | Data_Struct_Implementation/atoi_itoa/itoa.c:47-51 | in base 10 a negative value's text is '-' and then the digits of its magnitude; in every other case the text is the digits of the magnitude, with no sign, so a negative value in another base comes out as its magnitude |
| DigitText.ZeroText | Data_Struct_Implementation/atoi_itoa/itoa.c:43-45 | 0 is written as the single digit "0" in every base |
| DigitText.WhileDigitsLowFirst | Data_Struct_Implementation/atoi_itoa/atoi_iota.c:25-32 | for a non-zero number the `while` loop of `itoa` writes the same digits as the `do`-`while` loop of `myitoa` |
| DigitText.RevRev | Data_Struct_Implementation/atoi_itoa/itoa.c:12-18 | reversing twice gives the buffer back |
| DigitText.LowFirstReversed | Data_Struct_Implementation/atoi_itoa/itoa.c:55-56 | the digits the loops write least significant first, reversed, are the digits most significant first |
| DigitText.SignedText | Data_Struct_Implementation/atoi_itoa/itoa.c:50-56 | a '-' written after the low-first digits ends up in front once the buffer is reversed, giving the printed text |
| Itoa.MySwap | Data_Struct_Implementation/atoi_itoa/itoa.c:7-9 | the two cells are exchanged and nothing else changes |
| Itoa.Reverse | Data_Struct_Implementation/atoi_itoa/itoa.c:12-18 | `buffer[i..j]` is reversed in place, the cells outside it are unchanged, and the buffer is returned |
| Itoa.Itoa | Data_Struct_Implementation/atoi_itoa/itoa.c:21-57 | a base outside `[2, 32]` returns the buffer untouched; otherwise the buffer starts with the value's text (a '-' only for a negative value in base 10, then the magnitude's digits, "0" for 0) and a terminating '\0', and the cells beyond are untouched |
| Itoa.WriteDigits | Data_Struct_Implementation/atoi_itoa/itoa.c:30-41 | the `while (n)` loop writes the digits of the magnitude least significant first, none at all for 0, and returns their count |
| Itoa.NextDigit | Data_Struct_Implementation/atoi_itoa/itoa.c:33-40 | one iteration gives the lowest digit and a strictly smaller quotient whose digits follow it |
| Itoa.SignAndEnd | Data_Struct_Implementation/atoi_itoa/itoa.c:50-53 | a '-' is appended when asked for, then the terminator, whose index is returned |
| Itoa.ReverseWritten | Data_Struct_Implementation/atoi_itoa/itoa.c:56 | reversing `[0, i - 1]` puts the written characters in printing order, leaving the terminator and the cells beyond untouched |
| MyItoa.MyItoa | Data_Struct_Implementation/atoi_itoa/atoi_iota.c:6-59 | a NULL buffer, or a base other than 2, 10 and 16, gives NULL and writes nothing; otherwise the buffer is returned, starting with the value's text (a '-' only for a negative value in base 10) and a terminating '\0', the cells beyond untouched |
| MyItoa.WriteText | Data_Struct_Implementation/atoi_itoa/atoi_iota.c:25-58 | from the magnitude and the sign flag, the digit loop, the '-', the terminator and the reversal leave the value's text and a '\0' at the front |
| MyItoa.FinishText | Data_Struct_Implementation/atoi_itoa/atoi_iota.c:34-56 | after the digits, the optional '-', the terminator and the swap loop between `head` and `tail` turn the low-first digits into the printed text |
| MyItoa.WriteDigitsDo | Data_Struct_Implementation/atoi_itoa/atoi_iota.c:25-32 | the `do`-`while` loop writes the magnitude's digits least significant first, at least one digit even for 0, and ends with `val` at 0 |
| MyItoa.DigitStep | Data_Struct_Implementation/atoi_itoa/atoi_iota.c:27-30 | one iteration writes the lowest digit; the loop stops exactly when the quotient is 0, and otherwise the quotient is smaller and its digits follow |
| StrStr.Compare | Data_Struct_Implementation/strstr/strstr.c:4-16 | true exactly when `Y` occurs in `X` at the given position |
| StrStr.StrStr | Data_Struct_Implementation/strstr/strstr.c:19-29 | NULL for an empty pattern or an empty text; a returned position is the first at which the pattern occurs; NULL for a non-empty pattern means it occurs nowhere |
| StrStr.DemoFirstOccurrence | Data_Struct_Implementation/strstr/strstr.c:32-40 | in "Techie Delight - Coding made easy", "Coding" occurs first at index 17 |
| EndianSwap.SwapHalves | Data_Struct_Implementation/endianessSwap/endianess.c:6 | the first step exchanges the two 16-bit halves, byte by byte |
| EndianSwap.SwapBytesInHalves | Data_Struct_Implementation/endianessSwap/endianess.c:7 | the second step exchanges the two bytes inside each half |
| EndianSwap.EndianessSwap | Data_Struct_Implementation/endianessSwap/endianess.c:5-9 | byte 0 of the result is byte 3 of the input, byte 1 is byte 2, and so on |
| EndianSwap.SwapReversesBytes | Data_Struct_Implementation/endianessSwap/endianess.c:5-9 | byte k of the swapped word is byte 3 - k of the input |
| EndianSwap.SwapInvolution | Data_Struct_Implementation/endianessSwap/endianess.c:5-9 | swapping twice gives the word back |
| EndianSwap.SwapExample | Data_Struct_Implementation/endianessSwap/endianess.c:13-22 | 0x12345678 becomes 0x78563412 |
| MemCopy.MyMemcpy | Data_Struct_Implementation/memcpy_memmove/memcpy.c:7-30 | afterwards `dest[0, n)` holds what `src[0, n)` held before, whether or not they overlap, and no other byte changes; the backward copy is taken exactly when `src <= dest <= src + n` |
| MemCopy.CopyForward | Data_Struct_Implementation/memcpy_memmove/memcpy.c:16-22 | the forward loop copies correctly whenever the destination does not start inside the source above its first byte, and touches nothing else |
| MemCopy.CopyBackward | Data_Struct_Implementation/memcpy_memmove/memcpy.c:23-29 | the backward loop copies correctly whenever the destination does not start below the source, and touches nothing else |
| AlignMask.MaskBounds | Data_Struct_Implementation/alignedMalloc/memalign_v2.c:30 | `x & ~m` is at most `x` and at most `m` below it |
| AlignMask.MaskPow2 | Data_Struct_Implementation/alignedMalloc/memalign_v2.c:30 | with `m = 2^k - 1` the mask clears exactly the low `k` bits |
| AlignMask.AlignUpBounds | Data_Struct_Implementation/alignedMalloc/memalign_v2.c:29-30 | the aligned address leaves room for the back pointer after the raw address, lies at most `alignment - 1` bytes past that, and `size` bytes from it fit in the block of `size + sizeof(void *) + alignment - 1` bytes |
| AlignMask.AlignUpAligned | Data_Struct_Implementation/alignedMalloc/memalign_v2.c:30 | for a power-of-two alignment the aligned address is a multiple of it |
| AlignMask.Mask72 | Data_Struct_Implementation/alignedMalloc/memalign_v2.c:66 | the alignment 72 that `main` asks for is not a power of two, and the mask then gives an address that is not a multiple of 72 |
| AlignMask.BackPointerRoundTrip | Data_Struct_Implementation/alignedMalloc/memalign_v2.c:30-45 | the word below the aligned address lies inside the raw block, and the raw pointer stored there is what is read back from the aligned address |
| MemalignV2.MyAlignedMalloc | Data_Struct_Implementation/alignedMalloc/memalign_v2.c:23-37 | the result leaves the back pointer and `size` bytes inside the raw block, is aligned for a power-of-two alignment, and the word below it now holds the raw pointer; nothing is freed |
| MemalignV2.MyAlignedFree | Data_Struct_Implementation/alignedMalloc/memalign_v2.c:39-46 | the raw pointer stored in the word below `ptr` is freed and memory is unchanged |
| MemalignV2.AllocThenFree | Data_Struct_Implementation/alignedMalloc/memalign_v2.c:65-71 | freeing what `my_aligned_malloc` returned frees exactly the raw block `malloc` gave |
| MemalignNew.AlignedMemory | Data_Struct_Implementation/alignedMalloc/memalign_new.c:5-12 | as `my_aligned_malloc`: room for the back pointer and `required` bytes, aligned for a power-of-two alignment, the raw pointer stored below the result |
| MemalignNew.FreeAlignedAsWritten | Data_Struct_Implementation/alignedMalloc/memalign_new.c:14-18 | the word freed is the one below the stack slot of the parameter `p`, not below `p` |
| MemalignNew.FreeAsWrittenMisses | Data_Struct_Implementation/alignedMalloc/memalign_new.c:14-18 | for a block at 32 aligned to 16, the back pointer below 48 is 32, yet with the parameter at 1000 and 0 below it, the word freed is 0 |
| MemalignNew.FreeAligned | Data_Struct_Implementation/alignedMalloc/memalign_new.c:14-18 | the corrected `free_aligned` frees the back pointer stored below `p` |
| MemalignNew.AllocThenFree | Data_Struct_Implementation/alignedMalloc/memalign_new.c:5-18 | with the corrected `free_aligned`, freeing what `aligned_memory` returned frees the raw block |
| EndianessAlign.AlignedMemory | Data_Struct_Implementation/endianess/endianess.c:4-13 | room for the back pointer and `required` bytes in the raw block, aligned for a power-of-two alignment, the raw pointer stored below the result |
| EndianessAlign.FreeAligned | Data_Struct_Implementation/endianess/endianess.c:15-17 | the raw pointer stored in the word below `p` is freed and memory is unchanged |
| EndianessAlign.AllocThenFree | Data_Struct_Implementation/endianess/endianess.c:4-17 | freeing what `aligned_memory` returned frees exactly the raw block |
| SortSpec.SwapPermutes | Data_Struct_Implementation/quickSort/quicksort.c:16-20 | exchanging two cells keeps the same elements |

## Left out

- The message queue, POSIX timer, `sigaction` and sleep plumbing of the fan coordinator's `main`, all of `fan_control_client.c`, and `log_msg`: operating-system services and printing.
- The MMAP / UMAP / READW / WRITEW register macros of the fan drivers: they are empty in `fan_hw.h` and print a message in `fan_hw.c`. In neither file do they read or write a register, and the printing is I/O. A driver callback is modelled by the value it would write and its status.
- The pthread reader and writer of `ring_buffer.c` and `buffer_multithread.c`: their point is concurrency.
- `TakeHomeQ2.c`: a code-review exercise that does not compile and states no coherent behaviour.
- `ArrayOfBits/bitsArray.c` and `atoi/atoi.c`: drivers whose callees are not part of this model.
- `sizeof/sizeof.c`: its results depend on compiler struct padding.
- `printArray`, `printDeck`, every `printf`, the `clock()` timing of the sort tests and the `main` drivers that only print: I/O and floating point. Which direction `myMemcpy` reports is returned as a `Direction`.
- `init_ticker` and SIGALRM of the timer list, `usleep` in the timing wheel's `main`, the `getchar` loop of the state machine, and `atoi(argv[..])`: signals, I/O and argument parsing. The card game's card count is a parameter.
- `poolFreePool`, `malloc`, `realloc` and `free`: library calls. The raw address `malloc` returns is a parameter and frees are recorded. A pool block is modelled only by whether its pointer is NULL. Allocation failure is not modelled.
- The `DISABLE_MEMORY_POOLING` variant of the pool, which only forwards to `malloc` and `free`.
- `memcpy.h` is not part of this model; the two direction constants it defines are the `Direction` values.
- Addresses are unbounded naturals: no wrap-around at 2^64 is modelled in the aligned allocators or `myMemcpy`, and `myMemcpy`'s `int` loop index is taken not to overflow.
- `myMemcpy` works on one byte array holding both ranges; separate C objects are not modelled.
- The printing of the stored back pointer in `memalign_new.c`'s `main`, which repeats the `&p` mistake of `free_aligned`.
- Timer callbacks and timing-wheel handlers are opaque codes: what a timer callback returns is the `results` parameter of `ClockTick`, and a wheel tick returns the handlers it runs, in order.
- The uninitialised loop index in `init_time_wheel`: it is modelled as the evidently intended loop that leaves every bin empty.
- The missing `return new_Q;` of `create_Q`: it is modelled as returning the new queue.
- The `next` pointer `addToDeckTail` leaves unset on the last node it appends, and the placeholder node `main` creates before dealing: both are modelled as NULL.
- CardDeck.Play: the source loops until the deck is in order, and with fewer than 3 cards it never is (FewCardsNeverInOrder), so the model plays at most `maxRounds` rounds.
- CardDeck.Table.AddToPileFront: requires the card not to be -1, the value that marks an empty pile; every card the game deals is 0 or more.
- Itoa.Itoa: requires `value > INT_MIN`, since `abs(INT_MIN)` overflows, and a buffer with room for the text and its terminator, which the source writes without checking.
- MyItoa.MyItoa: requires `val > INT_MIN`, since `-val` overflows for it, and a buffer with room for the text and its terminator.
- LinkedQueue.Pop: requires a non-empty queue, since the source dereferences the NULL head otherwise.
- LinkedQueue.Queue.constructor: allocation failure is not modelled; a size of 0 or less gives NULL through `CreateQ`.
- ArrayStack.Stack.constructor: requires a non-negative capacity, the size passed to `malloc`; the allocation-failure exits are not modelled.
- ChainedHash.Table.Search: requires `key >= 0`, like `Insert` and `Delete`, because C's `%` of a negative key gives a negative bucket index.
- TimerWheel.TWheel.constructor: requires a granularity above 0, because every `install_handler` divides by it.
- TimerWheel.TWheel.InstallHandler: requires `cur_slot + deadline / granularity >= 0`. A deadline more negative than that passes the full-turn test, but C's `%` then gives a negative bin index and the write lands before the bin array.
- TimerList.TimerSystem.FreeTimer: requires the node to be on neither list, because inserting a listed node into a TAILQ corrupts both lists.
- TimerList.TimerSystem.ArmTimer: requires the node to be on neither list, for the same reason.
- TimerList.TimerSystem.DisarmTimer: requires the node to be on the active list, because `TAILQ_REMOVE` of another node corrupts the list.
- TimerList.TimerSystem.SetTimer: requires the node not to be active, because changing the fire time of an active timer would break the list's order. It also requires a fire time below 2^64. The `uint64_t` addition wraps modulo 2^64 as written.
- MemoryPool.Pool.constructor: requires at least one element per block, because `poolFreeAll` computes `blockSize - 1`; `sizeof(poolFreed)` is taken as 8.
- MemoryPool.TestPool: requires at least two elements per block; the test's call uses 8.
- AlignMask.AlignUp: requires an alignment of at least 1, because the mask `~(alignment - 1)` of alignment 0 is all ones, an underflow the allocators do not intend. A power of two is needed only for the multiple-of-alignment result, and Mask72 shows the alignment `main` uses that is not one.
- RingBuffer.Ring.WriteToBuffer: the source's cells are `uint32_t`, but the model's cells hold the `int` values themselves. Storing an `int` and reading it back as `int` returns it unchanged, so the conversion is not modelled.

## Findings

| source | as written | input that shows it | evidently intended | confidence | as-written member | corrected member |
|---|---|---|---|---|---|---|
| Interview/Company/intuitive/fan_control_server.c:80 | free slots are marked with `-1`, but `module_id` is `uint8_t`, so the mark is stored as 255 and `-1 != module_id` is always true: every slot is commanded, including free ones | `FAN_init(3)`: slot 3 is free, with a NULL `set_speed`, and is still commanded, so the timer handler calls NULL | command only the slots that hold a module | not executed | FanControl.CommandedAsWrittenIsEverySlot | FanControl.CommandedExactly |
| Data_Struct_Implementation/binaryHeap/binaryHeap_2.c:58 | the down-heap step compares the right child with `data[index]`, not with the larger of the node and the left child | popping the heap [4, 3, 2, 1] leaves [2, 3, 1], which is not a max-heap | pick the largest of the node, its left child and its right child | not executed | MaxHeap2.PopAsWrittenBreaksHeap | MaxHeap2.PopKeepsHeap |
| Data_Struct_Implementation/quickSort/quicksort.c:32-45 | when the scans stop with `left == right`, the recursive calls cover `[st, left - 1]` and `[right + 1, end]`, so that cell belongs to neither and stays where it is even when it is out of order | {5, 1, 3, 6, 7} becomes {3, 1, 5, 6, 7} | the array in ascending order | not executed | QuickSort.AsWrittenMissesCell | QuickSort.QuickSortSorts |
| Data_Struct_Implementation/alignedMalloc/memalign_new.c:15-17 | `free_aligned` reads the word below the parameter's own address `&p`, not the word below `p` | raw block 32, alignment 16: `p` is 48; with the parameter slot at 1000 and the word at 992 holding 0, `free(0)` runs and block 32 is never freed | free the raw pointer stored at `((void **)p)[-1]` | not executed | MemalignNew.FreeAsWrittenMisses | MemalignNew.FreeAligned |
| Interview/Company/Apple/TakeHomeQ1.c:116-120 | `addToPileFront` on an empty pile points `top_card` at the new node without setting its `next`, and the placeholder node is leaked | card 0 put on an empty pile whose stale `next` reaches a node holding 7: the pile reads [0, 7] instead of [0] | the single node's `next` is NULL | not executed | CardDeck.PushAsWrittenOnEmpty | CardDeck.PushAllOnEmpty |
