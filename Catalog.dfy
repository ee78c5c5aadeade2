/**
 * The fixed destination catalog (`places` in app.js). Its keys are the only
 * destination ids the selection logic accepts. The texts are kept as they
 * appear in the catalog (including the `&apos;` entities, which the page
 * renders as HTML); nothing in the model inspects them except the itinerary
 * subtitle, which looks for the first '.' of a description.
 */
module Catalog {

  /** One destination record; the catalog never changes it. */
  datatype Place = Place(
    name: string,
    description: string,
    highlights: seq<string>,
    quickFacts: seq<string>)

  const Places: map<string, Place> := map[
    "taipei" := Place(
      "Taipei, Taiwan",
      "Between mountain trails and neon-lit lanes, Taipei offers a seamless blend of ancient temples, sizzling street food, and design-forward cafés.",
      ["Ride the glass-floor gondola up Maokong for sunset tea ceremonies.",
       "Eat your way through Shilin Night Market&apos;s street food legends.",
       "Discover creative boutiques in the Songshan Cultural Park warehouses."],
      ["Night markets", "Tea culture", "Hot springs"]),
    "paris" := Place(
      "Paris, France",
      "All-day art crawls, golden-hour picnics by the Seine, and indie fashion dens tucked behind wrought-iron balconies—Paris is pure inspiration.",
      ["Watch the Eiffel Tower sparkle from the Trocadéro gardens at dusk.",
       "Treat yourself to fresh pastries and people-watching in Le Marais.",
       "Bike the Left Bank to discover hidden bookshops and gallery pop-ups."],
      ["Iconic skyline", "Art museums", "Riverside picnics"]),
    "capeTown" := Place(
      "Cape Town, South Africa",
      "This coastal gem mixes dramatic Table Mountain hikes, penguin-dotted beaches, and wine estates with award-winning cuisine and design hotels.",
      ["Hike Lion&apos;s Head for sunrise and a 360° ocean panorama.",
       "Meet the Boulders Beach penguin colony up close.",
       "Sip Sauvignon Blanc in the Constantia vineyards just minutes from town."],
      ["Coastal drives", "Wildlife", "Wine estates"]),
    "london" := Place(
      "London, United Kingdom",
      "Heritage landmarks share the skyline with sky gardens, street food halls, and pop-up performances—London rewrites itself every weekend.",
      ["Visit the Tate Modern before sunset cocktails at the Sky Garden.",
       "Snack your way through Borough Market&apos;s global food stalls.",
       "Explore colorful mews and murals in Notting Hill and Shoreditch."],
      ["Museums", "Markets", "Music"]),
    "tokyo" := Place(
      "Tokyo, Japan",
      "From tranquil Shinto shrines to futuristic neighborhoods of neon, Tokyo keeps energy high and aesthetics impeccable in every district.",
      ["Catch the first light at Senso-ji Temple before the crowds arrive.",
       "Sip artisan coffee in Daikanyama then browse design studios.",
       "Sing karaoke in Golden Gai after a sushi omakase dinner."],
      ["Culinary adventures", "Design", "Nightlife"]),
    "lagoComo" := Place(
      "Lago di Como, Italy",
      "Bell towers, cypress gardens, and mountains plunging into mirror-still waters—Lake Como is the definition of cinematic daydreaming.",
      ["Cruise between Bellagio and Varenna for pastel-perfect harbor views.",
       "Tour the botanical wonders of Villa del Balbianello.",
       "Enjoy aperitivo hour as the alpenglow hits the surrounding Alps."],
      ["Lake life", "Boutique villas", "Aperitivo"])
  ]

  /**
   * The guard `places[placeId]` of togglePin and renderActiveDestination.
   * The selection logic takes the catalog as a parameter, so that its
   * properties hold for any catalog; the page uses Places.
   */
  predicate Known(places: map<string, Place>, id: string)
  {
    id in places
  }
}
