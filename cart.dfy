/**
 * The cart view: which store action each control dispatches, the order total,
 * what the panel shows for an empty and a non-empty cart, and the
 * "checkout disabled" dialog.
 */
module Cart {
  import Assets

  /**
   * A cart line as the store hands it to the view. `id` is the line's own `id`,
   * the row's key. Prices are whole cents; quantities are integers.
   */
  datatype Item = Item(id: string, name: string, price: int, image: string, quantity: int)

  /** The store actions the view dispatches. */
  datatype Action =
    | UpdateQuantity(id: string, quantity: int)
    | RemoveItem(item: Item)
    | ClearCart

  /** `handleAddItem`: ask for one more of the item. */
  function AddItemAction(item: Item): (a: Action)
    ensures a.UpdateQuantity? && a.id == item.id && a.quantity == item.quantity + 1
  {
    UpdateQuantity(item.id, item.quantity + 1)
  }

  /**
   * `handleRemoveItem`: ask for one fewer while more than one is in the cart,
   * otherwise remove the line. An update never asks for fewer than one.
   */
  function RemoveItemAction(item: Item): (a: Action)
    ensures a.UpdateQuantity? <==> item.quantity > 1
    ensures a.UpdateQuantity? ==> a.id == item.id && a.quantity == item.quantity - 1 && a.quantity >= 1
    ensures a.RemoveItem? <==> item.quantity <= 1
    ensures a.RemoveItem? ==> a.item == item
  {
    if item.quantity > 1 then UpdateQuantity(item.id, item.quantity - 1) else RemoveItem(item)
  }

  /** `handleClearCart`: clear, whatever the cart holds. */
  function ClearCartAction(items: seq<Item>): (a: Action)
    ensures a == ClearCart
  {
    ClearCart
  }

  /** Pressing "-" after "+" asks for the quantity the line had before. */
  lemma AddThenRemove(item: Item)
    requires item.quantity >= 1
    ensures RemoveItemAction(item.(quantity := AddItemAction(item).quantity)) == UpdateQuantity(item.id, item.quantity)
  {
  }

  /** Pressing "+" after "-" on a line with more than one asks for the quantity it had before. */
  lemma RemoveThenAdd(item: Item)
    requires item.quantity > 1
    ensures AddItemAction(item.(quantity := RemoveItemAction(item).quantity)) == UpdateQuantity(item.id, item.quantity)
  {
  }

  function LineTotal(item: Item): int
  {
    item.price * item.quantity
  }

  /** The order total as a plain sum of the line totals. */
  function Sum(items: seq<Item>): int
  {
    if items == [] then 0 else LineTotal(items[0]) + Sum(items[1..])
  }

  /** `reduce((total, item) => total + item.price * item.quantity, acc)` over items. */
  function TotalFrom(acc: int, items: seq<Item>): int
    decreases |items|
  {
    if items == [] then acc else TotalFrom(acc + LineTotal(items[0]), items[1..])
  }

  /** Folding from an accumulator adds the sum of the lines to it. */
  lemma {:induction false} TotalFromIsSum(acc: int, items: seq<Item>)
    ensures TotalFrom(acc, items) == acc + Sum(items)
    decreases |items|
  {
    if items != [] {
      TotalFromIsSum(acc + LineTotal(items[0]), items[1..]);
    }
  }

  /** `totalPrice`: the reduce started from 0, which is the sum of the lines. */
  function TotalPrice(items: seq<Item>): (total: int)
    ensures total == Sum(items)
  {
    TotalFromIsSum(0, items);
    TotalFrom(0, items)
  }

  /** The sum over two lists of lines is the sum of their sums. */
  lemma {:induction false} SumAppend(xs: seq<Item>, ys: seq<Item>)
    ensures Sum(xs + ys) == Sum(xs) + Sum(ys)
  {
    if xs == [] {
      assert xs + ys == ys;
    } else {
      assert (xs + ys)[1..] == xs[1..] + ys;
      SumAppend(xs[1..], ys);
    }
  }

  /** The empty cart totals zero, and the total of two carts is the sum of their totals. */
  lemma TotalAppend(xs: seq<Item>, ys: seq<Item>)
    ensures TotalPrice([]) == 0
    ensures TotalPrice(xs + ys) == TotalPrice(xs) + TotalPrice(ys)
  {
    SumAppend(xs, ys);
  }

  /** Taking line j out of a cart takes its line total out of the sum. */
  lemma SumWithout(ys: seq<Item>, j: nat)
    requires j < |ys|
    ensures Sum(ys) == LineTotal(ys[j]) + Sum(ys[..j] + ys[j + 1..])
  {
    var a, b := ys[..j], ys[j + 1..];
    assert ys == a + ([ys[j]] + b);
    SumAppend(a, [ys[j]] + b);
    assert ([ys[j]] + b)[1..] == b;
    SumAppend(a, b);
  }

  /** Taking line j out of a cart takes one copy of it out of the cart's multiset. */
  lemma MultisetWithout(ys: seq<Item>, j: nat)
    requires j < |ys|
    ensures multiset(ys[..j] + ys[j + 1..]) == multiset(ys) - multiset{ys[j]}
  {
    var a, b := ys[..j], ys[j + 1..];
    assert ys == a + [ys[j]] + b;
    assert multiset(ys) == multiset(a) + multiset{ys[j]} + multiset(b);
  }

  /** The total does not depend on the order of the lines. */
  lemma {:induction false} SumPermutation(xs: seq<Item>, ys: seq<Item>)
    requires multiset(xs) == multiset(ys)
    ensures Sum(xs) == Sum(ys)
    decreases |xs|
  {
    if xs != [] {
      var x := xs[0];
      assert x in multiset(ys);
      var j :| 0 <= j < |ys| && ys[j] == x;
      var rest := ys[..j] + ys[j + 1..];
      assert xs == [x] + xs[1..];
      assert multiset(xs[1..]) == multiset(xs) - multiset{x};
      MultisetWithout(ys, j);
      SumPermutation(xs[1..], rest);
      SumWithout(ys, j);
    } else {
      assert |ys| == |multiset(ys)| == 0;
    }
  }

  /** The same for the total the view shows. */
  lemma TotalPermutation(xs: seq<Item>, ys: seq<Item>)
    requires multiset(xs) == multiset(ys)
    ensures TotalPrice(xs) == TotalPrice(ys)
  {
    SumPermutation(xs, ys);
  }

  /** With no negative prices or quantities the total is never negative. */
  lemma TotalNonNegative(items: seq<Item>)
    requires forall k :: 0 <= k < |items| ==> items[k].price >= 0 && items[k].quantity >= 0
    ensures TotalPrice(items) >= 0
  {
    SumNonNegative(items);
  }

  lemma {:induction false} SumNonNegative(items: seq<Item>)
    requires forall k :: 0 <= k < |items| ==> items[k].price >= 0 && items[k].quantity >= 0
    ensures Sum(items) >= 0
  {
    if items != [] {
      assert items[0].price * items[0].quantity >= 0;
      SumNonNegative(items[1..]);
    }
  }

  /** What the cart panel shows below its "Cart" title. */
  datatype Element =
    | EmptyMessage
    | ItemRow(key: string, src: string, alt: string, name: string, price: int, quantity: int)
    | TotalLine(total: int)
    | ClearButton
    | CheckoutButton

  /** One row per cart line: picture, name, unit price and quantity between its "-" and "+" buttons. */
  function RowOf(item: Item): (e: Element)
    ensures e.ItemRow? && e.key == item.id && e.src == Assets.ImagePath(item.image)
    ensures e.alt == item.name && e.name == item.name && e.price == item.price && e.quantity == item.quantity
  {
    ItemRow(item.id, Assets.ImagePath(item.image), item.name, item.name, item.price, item.quantity)
  }

  /**
   * `cartItems.length === 0 ? ... : ...`: the empty-state message alone, or the
   * rows in cart order followed by the total and the two buttons.
   */
  function Panel(items: seq<Item>): (shown: seq<Element>)
    ensures items == [] ==> shown == [EmptyMessage]
    ensures items != [] ==> |shown| == |items| + 3
    ensures items != [] ==> forall k :: 0 <= k < |items| ==> shown[k] == RowOf(items[k])
    ensures items != [] ==> shown[|items|..] == [TotalLine(TotalPrice(items)), ClearButton, CheckoutButton]
  {
    if items == [] then [EmptyMessage]
    else
      seq(|items|, k requires 0 <= k < |items| => RowOf(items[k]))
      + [TotalLine(TotalPrice(items)), ClearButton, CheckoutButton]
  }

  /**
   * The empty-state message appears exactly when the cart is empty, and then
   * nothing else does: the rows, the total, Clear and Checkout appear exactly
   * when it is not.
   */
  lemma EmptyCartShowsOnlyMessage(items: seq<Item>)
    ensures EmptyMessage in Panel(items) <==> items == []
    ensures items == [] ==> forall e :: e in Panel(items) ==> e == EmptyMessage
    ensures ClearButton in Panel(items) <==> items != []
    ensures CheckoutButton in Panel(items) <==> items != []
    ensures (exists t :: TotalLine(t) in Panel(items)) <==> items != []
    ensures forall k :: 0 <= k < |items| ==> RowOf(items[k]) in Panel(items)
  {
    var shown := Panel(items);
    if items != [] {
      assert shown[|items|] == TotalLine(TotalPrice(items));
      assert shown[|items| + 1] == ClearButton;
      assert shown[|items| + 2] == CheckoutButton;
      forall k | 0 <= k < |shown| ensures shown[k] != EmptyMessage {
        if k < |items| {
          assert shown[k] == RowOf(items[k]);
        } else {
          assert shown[k] == shown[|items|..][k - |items|];
        }
      }
    }
  }

  /** Where a click can land. */
  datatype Target =
    | CheckoutControl  // the Checkout button of a non-empty cart
    | Backdrop         // the dimmed overlay around the dialog
    | DialogBody       // the dialog, outside its Close button
    | CloseControl     // the dialog's Close button
    | Elsewhere        // any other part of the page

  /** What an element on the click's way up does with it. */
  datatype Handler = SetVisible(visible: bool) | StopPropagation

  /** The handlers a click meets as it bubbles up from its target, innermost first. */
  function BubblePath(t: Target): seq<Handler>
  {
    match t
    case CheckoutControl => [SetVisible(true)]
    case Backdrop => [SetVisible(false)]
    case DialogBody => [StopPropagation, SetVisible(false)]
    case CloseControl => [SetVisible(false), StopPropagation, SetVisible(false)]
    case Elsewhere => []
  }

  /** Runs the handlers in order until one stops the propagation; the last state set wins. */
  function Bubble(visible: bool, path: seq<Handler>): bool
    decreases |path|
  {
    if path == [] then visible
    else match path[0]
      case StopPropagation => visible
      case SetVisible(v) => Bubble(v, path[1..])
  }

  /** `isPopupVisible` after one click. */
  function Step(visible: bool, t: Target): bool
  {
    Bubble(visible, BubblePath(t))
  }

  /**
   * Checkout shows the dialog, the backdrop and Close hide it, and a click on
   * the dialog body stops before reaching the backdrop, so it changes nothing.
   */
  lemma StepOutcomes(visible: bool)
    ensures Step(visible, CheckoutControl)
    ensures !Step(visible, Backdrop) && !Step(visible, CloseControl)
    ensures Step(visible, DialogBody) == visible && Step(visible, Elsewhere) == visible
  {
  }

  /** `isPopupVisible` after a sequence of clicks, first click first. */
  function Run(visible: bool, clicks: seq<Target>): bool
  {
    if clicks == [] then visible else Step(Run(visible, clicks[..|clicks| - 1]), clicks[|clicks| - 1])
  }

  /** No click after position i closes or opens the dialog. */
  predicate QuietAfter(clicks: seq<Target>, i: int)
  {
    forall j :: 0 <= j < |clicks| && i < j ==> clicks[j] == DialogBody || clicks[j] == Elsewhere
  }

  /** Click i was on Checkout and nothing after it closed or reopened the dialog. */
  predicate OpenedAt(clicks: seq<Target>, i: int)
  {
    0 <= i < |clicks| && clicks[i] == CheckoutControl && QuietAfter(clicks, i)
  }

  /** The dialog is open after the clicks by the last click that changed it, or was open before and left alone. */
  predicate Opened(visible: bool, clicks: seq<Target>)
  {
    (exists i :: 0 <= i < |clicks| && OpenedAt(clicks, i)) || (visible && QuietAfter(clicks, -1))
  }

  /** A click that changes nothing leaves the question where it was. */
  lemma OpenedAfterQuietClick(visible: bool, clicks: seq<Target>)
    requires clicks != []
    requires clicks[|clicks| - 1] == DialogBody || clicks[|clicks| - 1] == Elsewhere
    ensures Opened(visible, clicks) == Opened(visible, clicks[..|clicks| - 1])
  {
    var n := |clicks| - 1;
    var init := clicks[..n];
    assert forall j :: 0 <= j < n ==> init[j] == clicks[j];
    assert forall i :: -1 <= i < n ==> (QuietAfter(clicks, i) <==> QuietAfter(init, i));
    assert forall i :: 0 <= i < n ==> (OpenedAt(clicks, i) <==> OpenedAt(init, i));
    assert !OpenedAt(clicks, n);
  }

  /** After a click on Backdrop or Close nothing is open. */
  lemma NotOpenedAfterClosingClick(visible: bool, clicks: seq<Target>)
    requires clicks != []
    requires clicks[|clicks| - 1] == Backdrop || clicks[|clicks| - 1] == CloseControl
    ensures !Opened(visible, clicks)
  {
    assert !QuietAfter(clicks, -1);
    assert forall i :: 0 <= i < |clicks| ==> !OpenedAt(clicks, i);
  }

  /**
   * The dialog is showing after a run of clicks exactly when the last click
   * that changed it was on Checkout, or, if none changed it, when it was
   * showing before.
   */
  lemma {:induction false} RunVisibleIff(visible: bool, clicks: seq<Target>)
    ensures Run(visible, clicks) <==> Opened(visible, clicks)
    decreases |clicks|
  {
    if clicks != [] {
      var n := |clicks| - 1;
      var last := clicks[n];
      RunVisibleIff(visible, clicks[..n]);
      StepOutcomes(Run(visible, clicks[..n]));
      if last == DialogBody || last == Elsewhere {
        OpenedAfterQuietClick(visible, clicks);
      } else if last == CheckoutControl {
        assert OpenedAt(clicks, n);
      } else {
        NotOpenedAfterClosingClick(visible, clicks);
      }
    }
  }

  /** The page starts with the dialog hidden, so it shows only after some click on Checkout. */
  lemma ShownOnlyAfterCheckout(clicks: seq<Target>)
    requires Run(false, clicks)
    ensures CheckoutControl in clicks
  {
    RunVisibleIff(false, clicks);
    var i :| 0 <= i < |clicks| && OpenedAt(clicks, i);
  }

  /** The "checkout disabled" dialog and the one piece of state it keeps. */
  class CheckoutPopup {
    var visible: bool

    /** `useState(false)`: hidden at first. */
    constructor()
      ensures !visible
    {
      visible := false;
    }

    /** `handleCheckout`, the handler a click on the Checkout button meets: the same step as Click(CheckoutControl). */
    method Checkout()
      modifies this
      ensures visible
      ensures visible == Step(old(visible), CheckoutControl)
    {
      StepOutcomes(visible);
      visible := true;
    }

    /** A click on t, with every handler it meets on its way up. */
    method Click(t: Target)
      modifies this
      ensures visible == Step(old(visible), t)
      ensures t == CheckoutControl ==> visible
      ensures t == Backdrop || t == CloseControl ==> !visible
      ensures t == DialogBody || t == Elsewhere ==> visible == old(visible)
    {
      StepOutcomes(visible);
      visible := Step(visible, t);
    }
  }
}
