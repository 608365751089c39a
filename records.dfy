/** Record shapes of the catalogue and order tables (foodcartapp/models.py) and
    the integrity constraints the database declares for them. Fields that only
    the admin site or the templates read (images, verbose names) are left out. */
module Records {

  datatype Option<T> = None | Some(value: T)

  datatype Restaurant = Restaurant(id: nat, name: string, address: string, contactPhone: string)

  /** `price` is in cents: the column is a decimal with two places. */
  datatype Product = Product(id: nat, name: string, category: Option<nat>, price: int,
                             specialStatus: bool, description: string)

  /** One row of the menu: whether `restaurant` currently offers the product
      whose id is `product`. The row carries the restaurant record itself, as
      the ORM hands out `restaurant_item.restaurant`. */
  datatype MenuItem = MenuItem(restaurant: Restaurant, product: nat, availability: bool)

  datatype Status = Unprocessed | InProcess | Completed

  datatype PaymentOption = Online | Cash | UnknownPayment

  /** Timestamps are abstract instants. */
  datatype Order = Order(id: nat, firstname: string, lastname: string, phonenumber: string,
                         address: string, status: Status, comment: string,
                         registeredAt: int, calledAt: Option<int>, deliveredAt: Option<int>,
                         paymentOption: PaymentOption, responsibleRestaurant: Option<nat>)

  /** `price` is in cents, a snapshot taken when the item is created. */
  datatype OrderItem = OrderItem(order: nat, product: nat, quantity: int, price: int)

  /** The catalogue tables, which nothing in this model writes. */
  datatype Catalog = Catalog(restaurants: seq<Restaurant>, products: seq<Product>, menuItems: seq<MenuItem>)

  /** `unique_together = [['restaurant', 'product']]` on the menu table. */
  predicate UniqueMenuPairs(menu: seq<MenuItem>) {
    forall i, j :: 0 <= i < j < |menu| ==>
      menu[i].restaurant.id != menu[j].restaurant.id || menu[i].product != menu[j].product
  }

  /** The foreign key from a menu item to the restaurant table. */
  predicate MenuRestaurantsListed(cat: Catalog) {
    forall m :: m in cat.menuItems ==> m.restaurant in cat.restaurants
  }
}
